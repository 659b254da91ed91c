/**
  The routing table shared by all routers: for each router, the number of hops
  it knows to each destination. Entries only ever go down (an update installs a
  hop count only when the cell is empty or the new count is strictly smaller),
  and a rebuild replaces the whole table by the one-hop view of the graph.
 */
module Routing {
  import opened Wrappers
  import opened Graph

  type Row = map<NodeId, nat>
  type Table = map<NodeId, Row>

  /** The hop count `router` knows for `destination`, if any. */
  function Entry(t: Table, router: NodeId, destination: NodeId): Option<nat> {
    if router in t && destination in t[router] then Some(t[router][destination]) else None
  }

  /** The smaller of two hop counts, where None stands for "unknown". */
  function MinMerge(a: Option<nat>, b: Option<nat>): (r: Option<nat>)
    ensures r.None? <==> a.None? && b.None?
    ensures a.Some? ==> r.Some? && r.value <= a.value
    ensures b.Some? ==> r.Some? && r.value <= b.value
    ensures r == a || r == b
  {
    match (a, b)
    case (None, _) => b
    case (_, None) => a
    case (Some(x), Some(y)) => if y < x then b else a
  }

  /** Taking minima in either grouping gives the same hop count. */
  lemma MinMergeAssociative(a: Option<nat>, b: Option<nat>, c: Option<nat>)
    ensures MinMerge(MinMerge(a, b), c) == MinMerge(a, MinMerge(b, c))
  {
  }

  /** Two tables with the same routers and the same entries are equal. */
  lemma TableExt(t1: Table, t2: Table)
    requires t1.Keys == t2.Keys
    requires forall x, y :: Entry(t1, x, y) == Entry(t2, x, y)
    ensures t1 == t2
  {
    forall x | x in t1
      ensures t1[x] == t2[x]
    {
      forall y | y in t1[x]
        ensures y in t2[x] && t1[x][y] == t2[x][y]
      {
        assert Entry(t1, x, y) == Entry(t2, x, y);
      }
      forall y | y in t2[x]
        ensures y in t1[x]
      {
        assert Entry(t1, x, y) == Entry(t2, x, y);
      }
    }
  }

  // ---------------------------------------------------------------------------
  // The monotonic update
  // ---------------------------------------------------------------------------

  /** The table after `updateRoutingTable(router, destination, hops)`. */
  function Update(t: Table, router: NodeId, destination: NodeId, hops: nat): (r: Table)
    ensures r.Keys == t.Keys + {router}
    ensures Entry(r, router, destination) == MinMerge(Entry(t, router, destination), Some(hops))
    ensures forall x, y :: (x != router || y != destination) ==> Entry(r, x, y) == Entry(t, x, y)
    ensures Entry(t, router, destination).Some? && Entry(t, router, destination).value <= hops ==> r == t
  {
    var row := if router in t then t[router] else map[];
    if destination !in row || hops < row[destination] then t[router := row[destination := hops]]
    else t
  }

  /** Applying the same update twice is the same as applying it once. */
  lemma UpdateIdempotent(t: Table, router: NodeId, destination: NodeId, hops: nat)
    ensures Update(Update(t, router, destination, hops), router, destination, hops)
         == Update(t, router, destination, hops)
  {
    var once := Update(t, router, destination, hops);
    assert Entry(once, router, destination).value <= hops;
  }

  /** One entry after an update: the minimum with the new count in the updated cell, unchanged elsewhere. */
  lemma UpdateEntry(t: Table, router: NodeId, destination: NodeId, hops: nat, x: NodeId, y: NodeId)
    ensures Entry(Update(t, router, destination, hops), x, y)
         == if x == router && y == destination then MinMerge(Entry(t, x, y), Some(hops)) else Entry(t, x, y)
  {
  }

  /** Any two updates commute: the final entries are minima either way. */
  lemma UpdatesCommute(t: Table, r1: NodeId, d1: NodeId, h1: nat, r2: NodeId, d2: NodeId, h2: nat)
    ensures Update(Update(t, r1, d1, h1), r2, d2, h2) == Update(Update(t, r2, d2, h2), r1, d1, h1)
  {
    var t1, t2 := Update(t, r1, d1, h1), Update(t, r2, d2, h2);
    var a, b := Update(t1, r2, d2, h2), Update(t2, r1, d1, h1);
    forall x, y
      ensures Entry(a, x, y) == Entry(b, x, y)
    {
      UpdateEntry(t, r1, d1, h1, x, y);
      UpdateEntry(t, r2, d2, h2, x, y);
      UpdateEntry(t1, r2, d2, h2, x, y);
      UpdateEntry(t2, r1, d1, h1, x, y);
      if x == r1 && y == d1 && x == r2 && y == d2 {
        MinMergeAssociative(Entry(t, x, y), Some(h1), Some(h2));
        MinMergeAssociative(Entry(t, x, y), Some(h2), Some(h1));
      }
    }
    TableExt(a, b);
  }

  /** An update never raises or removes an entry, and never removes a router. */
  ghost predicate NoEntryRaised(t: Table, t': Table) {
    && t.Keys <= t'.Keys
    && forall x, y :: Entry(t, x, y).Some? ==> Entry(t', x, y).Some? && Entry(t', x, y).value <= Entry(t, x, y).value
  }

  /** A sequence of updates, applied in order. */
  datatype Request = Request(router: NodeId, destination: NodeId, hops: nat)

  function ApplyAll(t: Table, requests: seq<Request>): Table
    decreases |requests|
  {
    if requests == [] then t
    else
      var last := requests[|requests| - 1];
      Update(ApplyAll(t, requests[..|requests| - 1]), last.router, last.destination, last.hops)
  }

  /** One more request of a prefix applies one more update. */
  lemma ApplyAllStep(t: Table, requests: seq<Request>, i: nat)
    requires i < |requests|
    ensures ApplyAll(t, requests[..i + 1])
         == Update(ApplyAll(t, requests[..i]), requests[i].router, requests[i].destination, requests[i].hops)
  {
    assert requests[..i + 1][..i] == requests[..i];
  }

  /** After any sequence of updates no entry is higher than before, and every
      requested entry is at most its requested hop count. */
  lemma {:induction false} ApplyAllLowers(t: Table, requests: seq<Request>)
    ensures NoEntryRaised(t, ApplyAll(t, requests))
    ensures forall k :: 0 <= k < |requests| ==>
      var e := Entry(ApplyAll(t, requests), requests[k].router, requests[k].destination);
      e.Some? && e.value <= requests[k].hops
    decreases |requests|
  {
    if requests != [] {
      var init := requests[..|requests| - 1];
      var last := requests[|requests| - 1];
      ApplyAllLowers(t, init);
      var before := ApplyAll(t, init);
      var after := Update(before, last.router, last.destination, last.hops);
      assert NoEntryRaised(before, after);
      forall k | 0 <= k < |requests|
        ensures var e := Entry(after, requests[k].router, requests[k].destination);
                e.Some? && e.value <= requests[k].hops
      {
        if k < |requests| - 1 {
          assert requests[k] == init[k];
        }
      }
    }
  }

  /** An entry that no request names keeps its value. */
  lemma {:induction false} ApplyAllFrame(t: Table, requests: seq<Request>, x: NodeId, y: NodeId)
    requires forall k :: 0 <= k < |requests| ==> requests[k].router != x || requests[k].destination != y
    ensures Entry(ApplyAll(t, requests), x, y) == Entry(t, x, y)
    decreases |requests|
  {
    if requests != [] {
      var init := requests[..|requests| - 1];
      assert forall k :: 0 <= k < |init| ==> init[k] == requests[k];
      ApplyAllFrame(t, init, x, y);
    }
  }

  /** An entry that exactly one request names ends as the minimum of its old
      value and the requested hop count. */
  lemma {:induction false} ApplyAllOnce(t: Table, requests: seq<Request>, k: nat)
    requires k < |requests|
    requires forall j :: 0 <= j < |requests| && j != k ==>
               requests[j].router != requests[k].router || requests[j].destination != requests[k].destination
    ensures Entry(ApplyAll(t, requests), requests[k].router, requests[k].destination)
         == MinMerge(Entry(t, requests[k].router, requests[k].destination), Some(requests[k].hops))
    decreases |requests|
  {
    var init := requests[..|requests| - 1];
    assert forall j :: 0 <= j < |init| ==> init[j] == requests[j];
    if k == |requests| - 1 {
      ApplyAllFrame(t, init, requests[k].router, requests[k].destination);
    } else {
      ApplyAllOnce(t, init, k);
    }
  }

  /** A self-route of 0 can never be raised or removed by an update. */
  lemma SelfRouteKept(t: Table, n: NodeId, router: NodeId, destination: NodeId, hops: nat)
    requires Entry(t, n, n) == Some(0)
    ensures Entry(Update(t, router, destination, hops), n, n) == Some(0)
  {
  }

  // ---------------------------------------------------------------------------
  // The one-hop view installed by a rebuild
  // ---------------------------------------------------------------------------

  /** What a router learns from its own edges: 0 hops to itself, 1 hop to each
      other target of its connected edges. */
  function OneHop(g: Graph, n: NodeId, destination: NodeId): Option<nat> {
    if destination == n then Some(0)
    else if destination in Neighbours(g, n, n) then Some(1)
    else None
  }

  function OneHopRow(g: Graph, n: NodeId): Row {
    map d | d in [n] + Neighbours(g, n, n) :: if d == n then 0 else 1
  }

  /** The table a rebuild installs: one row per node, and nothing else. */
  function OneHopView(g: Graph): (r: Table)
    ensures r.Keys == Elems(g.nodes)
    ensures forall n, d :: Entry(r, n, d) == if n in g.nodes then OneHop(g, n, d) else None
  {
    map n | n in Elems(g.nodes) :: OneHopRow(g, n)
  }

  /** In a valid graph a rebuilt entry is 0 exactly on the diagonal, 1 exactly
      for the directed edges leaving a node, and absent otherwise. */
  lemma OneHopMeaning(g: Graph, n: NodeId, d: NodeId)
    requires Valid(g)
    requires n in g.nodes
    ensures Entry(OneHopView(g), n, d) == Some(0) <==> d == n
    ensures Entry(OneHopView(g), n, d) == Some(1) <==> d != n && (n, d) in g.weight
    ensures Entry(OneHopView(g), n, d).Some? <==> d == n || (n, d) in g.weight
  {
    if d != n {
      ConnectedTargetsAreSuccessors(g, n, d);
    }
  }

  /** A row holding the node itself at 0 and exactly its other connected targets at 1 is its one-hop row. */
  lemma RowIsOneHop(g: Graph, n: NodeId, row: Row)
    requires forall d :: d in row <==> d == n || d in Neighbours(g, n, n)
    requires forall d :: d in row ==> row[d] == if d == n then 0 else 1
    ensures row == OneHopRow(g, n)
  {
    var expected := OneHopRow(g, n);
    assert forall d :: d in expected <==> d in [n] + Neighbours(g, n, n);
    assert row.Keys == expected.Keys;
  }

  /** A table holding exactly the one-hop row of every node is the one-hop view. */
  lemma TableIsOneHopView(g: Graph, t: Table)
    requires forall m :: m in t <==> m in g.nodes
    requires forall m :: m in t ==> t[m] == OneHopRow(g, m)
    ensures t == OneHopView(g)
  {
    assert t.Keys == OneHopView(g).Keys;
  }

  /** The table before any rebuild: n1 knows itself and n2, n2 knows itself. */
  function InitialTable(): Table {
    map["n1" := map["n1" := 0, "n2" := 1], "n2" := map["n2" := 0]]
  }

  /** The routing table as a stateful object: the updates of the routers go
      through `UpdateRoute`, a change to the graph through `Rebuild`. */
  class RoutingTable {
    var table: Table

    constructor ()
      ensures table == InitialTable()
    {
      table := InitialTable();
    }

    method UpdateRoute(router: NodeId, destination: NodeId, hops: nat)
      modifies this
      ensures table == Update(old(table), router, destination, hops)
    {
      var row := if router in table then table[router] else map[];
      if destination !in row || hops < row[destination] {
        row := row[destination := hops];
        table := table[router := row];
      }
    }

    /** Replace every entry by the one-hop view of `g`: each node gets a new
        row holding itself at 0, then 1 for each other target of its edges. */
    method Rebuild(g: Graph)
      modifies this
      ensures table == OneHopView(g)
    {
      var rebuilt: Table := map[];
      for i := 0 to |g.nodes|
        invariant forall m :: m in rebuilt <==> m in g.nodes[..i]
        invariant forall m :: m in rebuilt ==> rebuilt[m] == OneHopRow(g, m)
      {
        var n := g.nodes[i];
        var targets := Neighbours(g, n, n);
        var row: Row := map[n := 0];
        for j := 0 to |targets|
          invariant forall d :: d in row <==> d == n || d in targets[..j]
          invariant forall d :: d in row ==> row[d] == if d == n then 0 else 1
        {
          PrefixStep(targets, j);
          assert targets[j] in targets;
          row := row[targets[j] := 1];
        }
        assert targets[..|targets|] == targets;
        RowIsOneHop(g, n, row);
        rebuilt := rebuilt[n := row];
        PrefixStep(g.nodes, i);
      }
      assert g.nodes[..|g.nodes|] == g.nodes;
      TableIsOneHopView(g, rebuilt);
      table := rebuilt;
    }
  }
}
