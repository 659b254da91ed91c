/**
  The three packet-forwarding policies of the control panel, hop by hop:
  random walk, flooding and experience-based routing, together with the
  routing-table refresh that precedes an experience-based run.
  The random choices of the source are an explicit stream of draws; the
  animation between hops is not part of the model.
 */
module Forwarding {
  import opened Wrappers
  import opened Graph
  import opened Routing

  /** A packet in flight. `visited` keeps insertion order, as a JavaScript Set does. */
  datatype Packet = Packet(id: nat, source: NodeId, target: NodeId, current: NodeId,
                           visited: seq<NodeId>, timeToLive: nat)

  /** The time-to-live each policy launches its packet with. */
  const RandomWalkTimeToLive: nat := 5
  const FloodingTimeToLive: nat := 5
  const ExperienceTimeToLive: nat := 10

  /** A new packet at its source, with nothing visited yet. */
  function Launch(id: nat, source: NodeId, target: NodeId, timeToLive: nat): Packet {
    Packet(id, source, target, source, [], timeToLive)
  }

  /** Why a packet stopped being forwarded. */
  datatype Outcome = Arrived | TimeToLiveExpired | NoNeighbour

  /** The decision taken at one router: stop, or forward to `next`. */
  datatype Step = Stop(outcome: Outcome) | Hop(next: NodeId)

  /** The routers a packet was forwarded to, in order, and why it stopped. */
  datatype Route = Route(hops: seq<NodeId>, outcome: Outcome)

  /** The elements of `s` other than `x`, in order. */
  function Without(s: seq<NodeId>, x: NodeId): (r: seq<NodeId>)
    ensures forall y :: y in r <==> y in s && y != x
    ensures |r| <= |s|
  {
    if s == [] then []
    else if s[0] == x then Without(s[1..], x)
    else [s[0]] + Without(s[1..], x)
  }

  /** A walk extended at its front by an edge into its first node is a walk. */
  lemma WalkCons(g: Graph, c: NodeId, w: seq<NodeId>)
    requires |w| >= 1 && IsWalk(g, w) && (c, w[0]) in g.weight
    ensures IsWalk(g, [c] + w)
  {
    var cw := [c] + w;
    forall i | 0 <= i < |cw| - 1
      ensures (cw[i], cw[i + 1]) in g.weight
    {
      if i > 0 {
        assert cw[i] == w[i - 1] && cw[i + 1] == w[i];
      }
    }
  }

  /** A neighbour that is not the node itself lies at the end of an edge from it. */
  lemma NeighbourIsSuccessor(g: Graph, n: NodeId, excluded: NodeId, x: NodeId)
    requires x in Neighbours(g, n, excluded) && x != n
    ensures (n, x) in g.weight && x in g.nodes && x != excluded
  {
    ConnectedTargetsAreSuccessors(g, n, x);
  }

  // ---------------------------------------------------------------------------
  // Random walk
  // ---------------------------------------------------------------------------

  /** The next hops random walk and flooding consider: the targets of the
      current router's connected edges, without the packet's source. The
      current router is one of them as soon as some edge enters it. */
  function Candidates(g: Graph, p: Packet): seq<NodeId> {
    Neighbours(g, p.current, p.source)
  }

  /** Some candidate differs from the current router, so drawing again until
      one does comes to an end. */
  predicate RetryLoopExits(candidates: seq<NodeId>, current: NodeId) {
    exists i :: 0 <= i < |candidates| && candidates[i] != current
  }

  /** One hop of random walk as written. The packet stops at its target, at
      time-to-live 0, or when there is no candidate; otherwise candidates are
      drawn until one differs from the current router. Drawing again until
      then picks among the other candidates, so the hop is the `draw`-th of
      those. When the current router is the only candidate the drawing never
      ends, which this member takes as its precondition. */
  function RandomWalkStep(g: Graph, p: Packet, draw: nat): (s: Step)
    requires p.current != p.target && p.timeToLive > 0 && |Candidates(g, p)| > 0 ==>
               RetryLoopExits(Candidates(g, p), p.current)
    ensures s == Stop(Arrived) <==> p.current == p.target
    ensures s == Stop(TimeToLiveExpired) <==> p.current != p.target && p.timeToLive == 0
    ensures s.Hop? <==> p.current != p.target && p.timeToLive > 0 && |Candidates(g, p)| > 0
    ensures s.Hop? ==> s.next in Candidates(g, p) && s.next != p.current
  {
    if p.current == p.target then Stop(Arrived)
    else if p.timeToLive == 0 then Stop(TimeToLiveExpired)
    else
      var candidates := Candidates(g, p);
      if |candidates| == 0 then Stop(NoNeighbour)
      else
        var others := Without(candidates, p.current);
        assert |others| > 0 by {
          var i :| 0 <= i < |candidates| && candidates[i] != p.current;
          assert candidates[i] in others;
        }
        Hop(others[draw % |others|])
  }

  /** One hop of random walk, corrected: the current router is never a
      candidate, and with no other candidate the packet is dropped. */
  function RandomWalkStepFixed(g: Graph, p: Packet, draw: nat): (s: Step)
    ensures s == Stop(Arrived) <==> p.current == p.target
    ensures s == Stop(TimeToLiveExpired) <==> p.current != p.target && p.timeToLive == 0
    ensures s.Hop? <==> p.current != p.target && p.timeToLive > 0 && RetryLoopExits(Candidates(g, p), p.current)
    ensures s.Hop? ==> s.next in Candidates(g, p) && s.next != p.current
  {
    if p.current == p.target then Stop(Arrived)
    else if p.timeToLive == 0 then Stop(TimeToLiveExpired)
    else
      var others := Without(Candidates(g, p), p.current);
      if |others| == 0 then
        assert !RetryLoopExits(Candidates(g, p), p.current) by {
          forall i | 0 <= i < |Candidates(g, p)|
            ensures Candidates(g, p)[i] == p.current
          {
            assert Candidates(g, p)[i] in Candidates(g, p);
          }
        }
        Stop(NoNeighbour)
      else
        assert others[0] in Candidates(g, p);
        Hop(others[draw % |others|])
  }

  /** Wherever the written step is defined, the corrected step takes the same decision. */
  lemma RandomWalkStepFixedAgrees(g: Graph, p: Packet, draw: nat)
    requires p.current != p.target && p.timeToLive > 0 && |Candidates(g, p)| > 0 ==>
               RetryLoopExits(Candidates(g, p), p.current)
    ensures RandomWalkStepFixed(g, p, draw) == RandomWalkStep(g, p, draw)
  {
    if p.current != p.target && p.timeToLive > 0 && |Candidates(g, p)| == 0 {
      assert !RetryLoopExits(Candidates(g, p), p.current);
    }
  }

  /** Two edges entering n2, from n1 and from n3. */
  function TwoEdgesIntoN2(): Graph {
    Graph(["n1", "n2", "n3"], map[("n1", "n2") := 1, ("n3", "n2") := 1])
  }

  /** A random walk from n1 to n3 in that graph hops to n2, whatever is drawn,
      and at n2 the only candidate is n2 itself: the retry loop cannot end. */
  lemma RetryLoopSpins(draw: nat)
    ensures
      var g := TwoEdgesIntoN2();
      var launched := Launch(0, "n1", "n3", RandomWalkTimeToLive);
      var atN2 := launched.(current := "n2", timeToLive := RandomWalkTimeToLive - 1);
      && RandomWalkStep(g, launched, draw) == Hop("n2")
      && atN2.current != atN2.target && atN2.timeToLive > 0
      && Candidates(g, atN2) == ["n2"]
      && !RetryLoopExits(Candidates(g, atN2), atN2.current)
  {
    var g := TwoEdgesIntoN2();
    assert g.weight.Keys == {("n1", "n2"), ("n3", "n2")};
    assert ConnectedTargets(g, "n1") == {"n2"} by {
      assert ("n1", "n2") in g.weight;
    }
    assert ConnectedTargets(g, "n2") == {"n2"} by {
      assert ("n1", "n2") in g.weight;
    }
    assert Neighbours(g, "n1", "n1") == ["n2"];
    assert Neighbours(g, "n2", "n1") == ["n2"];
    var launched := Launch(0, "n1", "n3", RandomWalkTimeToLive);
    assert RetryLoopExits(Candidates(g, launched), launched.current) by {
      assert Candidates(g, launched)[0] == "n2";
    }
    assert Without(["n2"], "n1") == ["n2"];
  }

  /** The packet forwarded one hop by random walk or flooding: time-to-live goes down by one. */
  function Forwarded(p: Packet, next: NodeId): Packet
    requires p.timeToLive > 0
  {
    p.(current := next, timeToLive := p.timeToLive - 1)
  }

  /** What every random-walk route from packet `p` satisfies: its hops follow
      edges, never return to the source, stop at the first arrival, and number
      at most the time-to-live, exactly that many when it expired. A walk
      that used up its time-to-live without arriving expired, and a packet is
      dropped only where no candidate other than the router itself is left. */
  ghost predicate WalkRouteOk(g: Graph, p: Packet, r: Route) {
    && |r.hops| <= p.timeToLive
    && IsWalk(g, [p.current] + r.hops)
    && (forall i :: 0 <= i < |r.hops| ==> r.hops[i] != p.source)
    && (forall i :: 0 <= i < |r.hops| ==> ([p.current] + r.hops)[i] != p.target)
    && (r.outcome == Arrived <==> ([p.current] + r.hops)[|r.hops|] == p.target)
    && (r.outcome == TimeToLiveExpired ==> |r.hops| == p.timeToLive)
    && (|r.hops| == p.timeToLive && r.outcome != Arrived ==> r.outcome == TimeToLiveExpired)
    && (r.outcome == NoNeighbour ==>
          var last := ([p.current] + r.hops)[|r.hops|];
          !RetryLoopExits(Neighbours(g, last, p.source), last))
  }

  /** A hop to a successor other than the source, followed by a good walk from there, is a good walk. */
  lemma HopThenWalk(g: Graph, p: Packet, next: NodeId, rest: Route)
    requires p.current != p.target && p.timeToLive > 0
    requires (p.current, next) in g.weight && next != p.source
    requires WalkRouteOk(g, Forwarded(p, next), rest)
    ensures WalkRouteOk(g, p, Route([next] + rest.hops, rest.outcome))
  {
    var hops := [next] + rest.hops;
    WalkCons(g, p.current, hops);
    assert [p.current] + hops == [p.current, next] + rest.hops;
    forall i | 1 <= i < |hops|
      ensures hops[i] == rest.hops[i - 1]
    {
    }
  }

  /** A whole random walk, with the corrected step and draws `draws(k)`,
      `draws(k + 1)`, ... The hops follow edges, never return to the source,
      stop at the first arrival, and number at most the time-to-live. */
  function RandomWalk(g: Graph, p: Packet, draws: nat -> nat, k: nat): (r: Route)
    ensures WalkRouteOk(g, p, r)
    decreases p.timeToLive
  {
    match RandomWalkStepFixed(g, p, draws(k))
    case Stop(outcome) => Route([], outcome)
    case Hop(next) =>
      NeighbourIsSuccessor(g, p.current, p.source, next);
      var rest := RandomWalk(g, Forwarded(p, next), draws, k + 1);
      HopThenWalk(g, p, next, rest);
      Route([next] + rest.hops, rest.outcome)
  }

  /** The random-walk button: a packet with time-to-live 5 from `source` to `target`. */
  function RandomWalkLaunch(g: Graph, id: nat, source: NodeId, target: NodeId, draws: nat -> nat): (r: Route)
    ensures |r.hops| <= 5
    ensures IsWalk(g, [source] + r.hops)
    ensures forall i :: 0 <= i < |r.hops| ==> r.hops[i] != source
    ensures r.outcome == Arrived <==> ([source] + r.hops)[|r.hops|] == target
    ensures r.outcome == TimeToLiveExpired <==> |r.hops| == 5 && r.outcome != Arrived
    ensures r.outcome == NoNeighbour ==>
              var last := ([source] + r.hops)[|r.hops|];
              !RetryLoopExits(Neighbours(g, last, source), last)
  {
    RandomWalk(g, Launch(id, source, target, RandomWalkTimeToLive), draws, 0)
  }

  // ---------------------------------------------------------------------------
  // Flooding
  // ---------------------------------------------------------------------------

  /** What every branch of a flood from packet `p` satisfies: its hops follow
      edges, enter no router twice, avoid the source and everything `p` had
      visited, stop at the first arrival, and number at most the time-to-live,
      exactly that many when and only when it expired without arriving. A
      branch is dropped only where every candidate has been visited. */
  ghost predicate BranchOk(g: Graph, p: Packet, b: Route) {
    && |b.hops| <= p.timeToLive
    && IsWalk(g, [p.current] + b.hops)
    && Distinct(b.hops)
    && (forall i :: 0 <= i < |b.hops| ==> b.hops[i] !in p.visited && b.hops[i] != p.source)
    && (forall i :: 0 <= i < |b.hops| ==> ([p.current] + b.hops)[i] != p.target)
    && (b.outcome == Arrived <==> ([p.current] + b.hops)[|b.hops|] == p.target)
    && (b.outcome == TimeToLiveExpired ==> |b.hops| == p.timeToLive)
    && (|b.hops| == p.timeToLive && b.outcome != Arrived ==> b.outcome == TimeToLiveExpired)
    && (b.outcome == NoNeighbour ==>
          forall c :: c in Neighbours(g, ([p.current] + b.hops)[|b.hops|], p.source) ==> c in p.visited + b.hops)
  }

  /** Every route of `branches` with `n` put in front of its hops. */
  function PrefixAll(n: NodeId, branches: seq<Route>): (r: seq<Route>)
    ensures |r| == |branches|
    ensures forall i :: 0 <= i < |r| ==> r[i] == Route([n] + branches[i].hops, branches[i].outcome)
  {
    seq(|branches|, i requires 0 <= i < |branches| => Route([n] + branches[i].hops, branches[i].outcome))
  }

  /** The packet a flooding router sends to `next`: one hop on, with its own
      copy of visited that records `next`. */
  function Flooded(p: Packet, next: NodeId): Packet
    requires p.timeToLive > 0
  {
    p.(current := next, visited := p.visited + [next], timeToLive := p.timeToLive - 1)
  }

  /** All branches of a flood from packet `p`, sequentially. The packet stops at
      its target, at time-to-live 0, or when there is no candidate; otherwise a
      copy goes to every candidate not yet visited, and when there is none the
      packet stops there. */
  function Flood(g: Graph, p: Packet): (branches: seq<Route>)
    requires p.source !in p.visited
    requires p.current == p.source || p.current in p.visited
    ensures |branches| >= 1
    ensures forall b :: b in branches ==> BranchOk(g, p, b)
    decreases p.timeToLive, 1
  {
    if p.current == p.target then [Route([], Arrived)]
    else if p.timeToLive == 0 then [Route([], TimeToLiveExpired)]
    else
      var candidates := Candidates(g, p);
      if |candidates| == 0 then [Route([], NoNeighbour)]
      else
        var sent := FloodBranches(g, p, candidates);
        if sent == [] then [Route([], NoNeighbour)] else sent
  }

  /** A branch of the copy sent to `n`, with `n` in front, is a branch of the flood from `p`. */
  lemma PrefixedBranchOk(g: Graph, p: Packet, n: NodeId, d: Route)
    requires p.current != p.target && p.timeToLive > 0
    requires (p.current, n) in g.weight && n !in p.visited && n != p.source
    requires BranchOk(g, Flooded(p, n), d)
    ensures BranchOk(g, p, Route([n] + d.hops, d.outcome))
  {
    var hops := [n] + d.hops;
    WalkCons(g, p.current, hops);
    assert [p.current] + hops == [p.current, n] + d.hops;
    forall j | 1 <= j < |hops|
      ensures hops[j] == d.hops[j - 1]
    {
    }
  }

  /** A candidate that is not the current router is one of its successors, and not the source. */
  lemma CandidateIsSuccessor(g: Graph, p: Packet, n: NodeId)
    requires n in Candidates(g, p) && n != p.current
    ensures (p.current, n) in g.weight && n != p.source
  {
    NeighbourIsSuccessor(g, p.current, p.source, n);
  }

  /** The branches of the copy sent to `n`, each with `n` in front, are branches of the flood from `p`. */
  lemma PrefixAllOk(g: Graph, p: Packet, n: NodeId, down: seq<Route>)
    requires p.current != p.target && p.timeToLive > 0
    requires (p.current, n) in g.weight && n !in p.visited && n != p.source
    requires forall d :: d in down ==> BranchOk(g, Flooded(p, n), d)
    ensures forall b :: b in PrefixAll(n, down) ==> BranchOk(g, p, b) && |b.hops| >= 1 && b.hops[0] == n
  {
    var mine := PrefixAll(n, down);
    forall b | b in mine
      ensures BranchOk(g, p, b) && |b.hops| >= 1 && b.hops[0] == n
    {
      var i :| 0 <= i < |mine| && mine[i] == b;
      assert down[i] in down;
      PrefixedBranchOk(g, p, n, down[i]);
    }
  }

  /** The branches sent to the routers of `candidates`, in order. Every branch
      starts at a candidate not yet visited, and every such candidate starts a branch. */
  function FloodBranches(g: Graph, p: Packet, candidates: seq<NodeId>): (branches: seq<Route>)
    requires p.source !in p.visited
    requires p.current == p.source || p.current in p.visited
    requires p.current != p.target && p.timeToLive > 0
    requires forall c :: c in candidates ==> c in Candidates(g, p)
    ensures forall b :: b in branches ==> BranchOk(g, p, b)
    ensures forall b :: b in branches ==> |b.hops| >= 1 && b.hops[0] in candidates && b.hops[0] !in p.visited
    ensures forall c :: c in candidates && c !in p.visited ==>
              exists b :: b in branches && |b.hops| >= 1 && b.hops[0] == c
    decreases p.timeToLive, 0, |candidates|
  {
    if candidates == [] then []
    else
      var n := candidates[0];
      var rest := FloodBranches(g, p, candidates[1..]);
      if n in p.visited then rest
      else
        assert n in candidates;
        CandidateIsSuccessor(g, p, n);
        var down := Flood(g, Flooded(p, n));
        PrefixAllOk(g, p, n, down);
        var mine := PrefixAll(n, down);
        assert mine[0] in mine;
        mine + rest
  }

  /** The flooding button: a packet with time-to-live 5 from `source` to `target`. */
  function FloodingLaunch(g: Graph, id: nat, source: NodeId, target: NodeId): (branches: seq<Route>)
    ensures |branches| >= 1
    ensures forall b :: b in branches ==>
              && |b.hops| <= 5
              && IsWalk(g, [source] + b.hops)
              && Distinct(b.hops)
              && (forall i :: 0 <= i < |b.hops| ==> b.hops[i] != source)
              && (b.outcome == Arrived <==> ([source] + b.hops)[|b.hops|] == target)
              && (b.outcome == TimeToLiveExpired <==> |b.hops| == 5 && b.outcome != Arrived)
              && (b.outcome == NoNeighbour ==>
                    forall c :: c in Neighbours(g, ([source] + b.hops)[|b.hops|], source) ==> c in b.hops)
  {
    Flood(g, Launch(id, source, target, FloodingTimeToLive))
  }

  // ---------------------------------------------------------------------------
  // Routing-table refresh
  // ---------------------------------------------------------------------------

  /** What a router has installed from `targets`, the first of its one-hop targets. */
  function Installed(n: NodeId, targets: seq<NodeId>, d: NodeId): Option<nat> {
    if d == n then Some(0) else if d in targets then Some(1) else None
  }

  /** Table `t` is `before` with router `n`'s row lowered to what it has installed from `installed`. */
  ghost predicate InstalledFrom(t: Table, before: Table, n: NodeId, installed: seq<NodeId>) {
    forall x, y :: Entry(t, x, y) ==
      if x == n then MinMerge(Entry(before, n, y), Installed(n, installed, y)) else Entry(before, x, y)
  }

  /** Installing 1 hop to the next target keeps the router's row the minimum of
      its old row and what it has installed so far. */
  lemma InstallStep(before: Table, mid: Table, n: NodeId, targets: seq<NodeId>, j: nat)
    requires j < |targets| && targets[j] != n
    requires InstalledFrom(mid, before, n, targets[..j])
    ensures InstalledFrom(Update(mid, n, targets[j], 1), before, n, targets[..j + 1])
  {
    var d := targets[j];
    assert targets[..j + 1] == targets[..j] + [d];
    forall x, y
      ensures Entry(Update(mid, n, d, 1), x, y) ==
              if x == n then MinMerge(Entry(before, n, y), Installed(n, targets[..j + 1], y)) else Entry(before, x, y)
    {
      if x == n && y == d {
        MinMergeAssociative(Entry(before, n, d), Installed(n, targets[..j], d), Some(1));
      } else if x == n {
        assert Installed(n, targets[..j + 1], y) == Installed(n, targets[..j], y);
      }
    }
  }

  /** Having installed every other target of its edges, the router's row is lowered to its one-hop view. */
  lemma InstalledAll(t: Table, before: Table, g: Graph, n: NodeId)
    requires InstalledFrom(t, before, n, Neighbours(g, n, n))
    ensures forall x, y :: Entry(t, x, y) ==
              if x == n then MinMerge(Entry(before, n, y), OneHop(g, n, y)) else Entry(before, x, y)
  {
    assert forall y :: Installed(n, Neighbours(g, n, n), y) == OneHop(g, n, y);
  }

  /** One router of the refresh: 0 hops to itself, then 1 hop to each other
      target of its connected edges, each through the monotonic update. */
  method RefreshRouter(rt: RoutingTable, g: Graph, n: NodeId)
    modifies rt
    ensures rt.table.Keys == old(rt.table).Keys + {n}
    ensures forall x, y :: Entry(rt.table, x, y) ==
              if x == n then MinMerge(Entry(old(rt.table), n, y), OneHop(g, n, y)) else Entry(old(rt.table), x, y)
  {
    ghost var before := rt.table;
    rt.UpdateRoute(n, n, 0);
    var targets := Neighbours(g, n, n);
    assert targets[..0] == [];
    for j := 0 to |targets|
      invariant rt.table.Keys == before.Keys + {n}
      invariant InstalledFrom(rt.table, before, n, targets[..j])
    {
      assert targets[j] in targets;
      InstallStep(before, rt.table, n, targets, j);
      rt.UpdateRoute(n, targets[j], 1);
    }
    assert targets[..|targets|] == targets;
    InstalledAll(rt.table, before, g, n);
  }

  /** Every router installs 0 hops to itself and 1 hop to each other target of
      its connected edges, through the monotonic update: the result is the
      entry-wise minimum of the old table and the rebuilt one-hop view. */
  method Refresh(rt: RoutingTable, g: Graph)
    modifies rt
    ensures rt.table.Keys == old(rt.table).Keys + Elems(g.nodes)
    ensures forall x, y :: Entry(rt.table, x, y) == MinMerge(Entry(old(rt.table), x, y), Entry(OneHopView(g), x, y))
  {
    ghost var t0 := rt.table;
    for i := 0 to |g.nodes|
      invariant rt.table.Keys == t0.Keys + Elems(g.nodes[..i])
      invariant forall x, y :: Entry(rt.table, x, y) ==
                  if x in g.nodes[..i] then MinMerge(Entry(t0, x, y), OneHop(g, x, y)) else Entry(t0, x, y)
    {
      var n := g.nodes[i];
      ghost var before := rt.table;
      RefreshRouter(rt, g, n);
      forall y
        ensures MinMerge(Entry(before, n, y), OneHop(g, n, y)) == MinMerge(Entry(t0, n, y), OneHop(g, n, y))
      {
        MinMergeAssociative(Entry(t0, n, y), OneHop(g, n, y), OneHop(g, n, y));
      }
      assert g.nodes[..i + 1] == g.nodes[..i] + [n];
    }
    assert g.nodes[..|g.nodes|] == g.nodes;
  }

  // ---------------------------------------------------------------------------
  // Experience-based routing
  // ---------------------------------------------------------------------------

  /** Record `current` as visited, keeping insertion order (a Set `add`). */
  function Visit(visited: seq<NodeId>, current: NodeId): (r: seq<NodeId>)
    ensures Elems(r) == Elems(visited) + {current}
    ensures current !in visited ==> r == visited + [current]
    ensures current in visited ==> r == visited
    ensures Distinct(visited) ==> Distinct(r)
  {
    if current in visited then visited else visited + [current]
  }

  /** The updates a router makes from the path a packet took to it: to the
      router at position i of `path`, |path| - i - 1 hops. */
  function LearnRequests(router: NodeId, path: seq<NodeId>): (r: seq<Request>)
    ensures |r| == if |path| == 0 then 0 else |path| - 1
    ensures forall i :: 0 <= i < |r| ==> r[i] == Request(router, path[i], |path| - i - 1)
    decreases |path|
  {
    if |path| <= 1 then []
    else
      var rest := LearnRequests(router, path[1..]);
      var r := [Request(router, path[0], |path| - 1)] + rest;
      assert forall i :: 1 <= i < |r| ==> r[i] == rest[i - 1] && path[1..][i - 1] == path[i];
      r
  }

  /** Learning from one more router on the path applies one more update. */
  lemma LearnStep(t: Table, router: NodeId, path: seq<NodeId>, i: nat)
    requires i < |path| - 1
    ensures ApplyAll(t, LearnRequests(router, path)[..i + 1])
         == Update(ApplyAll(t, LearnRequests(router, path)[..i]), router, path[i], |path| - i - 1)
  {
    ApplyAllStep(t, LearnRequests(router, path), i);
  }

  /** The learning loop: one monotonic update per earlier router on the path. */
  method Learn(rt: RoutingTable, router: NodeId, path: seq<NodeId>)
    modifies rt
    ensures rt.table == ApplyAll(old(rt.table), LearnRequests(router, path))
  {
    ghost var t0 := rt.table;
    ghost var requests := LearnRequests(router, path);
    var i := 0;
    while i < |path| - 1
      invariant 0 <= i <= |requests|
      invariant rt.table == ApplyAll(t0, requests[..i])
    {
      LearnStep(t0, router, path, i);
      rt.UpdateRoute(router, path[i], |path| - i - 1);
      i := i + 1;
    }
    assert requests[..i] == requests;
  }

  /** Along a path without repetitions, the router's entry to the router i
      positions back becomes the minimum of what it knew and |path| - i - 1. */
  lemma LearnedEntry(t: Table, router: NodeId, path: seq<NodeId>, i: nat)
    requires Distinct(path) && i < |path| - 1
    ensures Entry(ApplyAll(t, LearnRequests(router, path)), router, path[i])
         == MinMerge(Entry(t, router, path[i]), Some(|path| - i - 1))
  {
    var requests := LearnRequests(router, path);
    assert requests[i] == Request(router, path[i], |path| - i - 1);
    forall j | 0 <= j < |requests| && j != i
      ensures requests[j].destination != requests[i].destination
    {
      assert requests[j].destination == path[j];
    }
    ApplyAllOnce(t, requests, i);
  }

  /** Learning leaves every entry the path does not name as it was. */
  lemma LearnedFrame(t: Table, router: NodeId, path: seq<NodeId>, x: NodeId, y: NodeId)
    requires |path| >= 1
    requires x != router || y !in path[..|path| - 1]
    ensures Entry(ApplyAll(t, LearnRequests(router, path)), x, y) == Entry(t, x, y)
  {
    var requests := LearnRequests(router, path);
    forall k | 0 <= k < |requests|
      ensures requests[k].router != x || requests[k].destination != y
    {
      assert requests[k] == Request(router, path[k], |path| - k - 1);
      assert path[k] == path[..|path| - 1][k];
    }
    ApplyAllFrame(t, requests, x, y);
  }

  /** Along a path without repetitions, the router's entry to the router i
      positions back becomes the minimum of what it knew and |path| - i - 1;
      every other entry, and every other router's row, is left as it was. */
  lemma LearnedEntries(t: Table, router: NodeId, path: seq<NodeId>)
    requires |path| >= 1 && Distinct(path)
    ensures forall i :: 0 <= i < |path| - 1 ==>
              Entry(ApplyAll(t, LearnRequests(router, path)), router, path[i])
              == MinMerge(Entry(t, router, path[i]), Some(|path| - i - 1))
    ensures forall x, y :: x != router || y !in path[..|path| - 1] ==>
              Entry(ApplyAll(t, LearnRequests(router, path)), x, y) == Entry(t, x, y)
  {
    forall i | 0 <= i < |path| - 1
      ensures Entry(ApplyAll(t, LearnRequests(router, path)), router, path[i])
           == MinMerge(Entry(t, router, path[i]), Some(|path| - i - 1))
    {
      LearnedEntry(t, router, path, i);
    }
    forall x, y | x != router || y !in path[..|path| - 1]
      ensures Entry(ApplyAll(t, LearnRequests(router, path)), x, y) == Entry(t, x, y)
    {
      LearnedFrame(t, router, path, x, y);
    }
  }

  /** The hop count to `target` that neighbour `n` advertises: its routing-table
      entry, unless `n` was already visited. */
  function Advertised(t: Table, visited: seq<NodeId>, target: NodeId, n: NodeId): Option<nat> {
    if n in visited then None else Entry(t, n, target)
  }

  /** The least hop count advertised among `ns` (None when none advertises one). */
  function Least(t: Table, visited: seq<NodeId>, target: NodeId, ns: seq<NodeId>): (m: Option<nat>)
    ensures forall i :: 0 <= i < |ns| && Advertised(t, visited, target, ns[i]).Some? ==>
              m.Some? && m.value <= Advertised(t, visited, target, ns[i]).value
    ensures m.Some? ==> exists i :: 0 <= i < |ns| && Advertised(t, visited, target, ns[i]) == m
    ensures m.None? <==> forall i :: 0 <= i < |ns| ==> Advertised(t, visited, target, ns[i]).None?
    decreases |ns|
  {
    if ns == [] then None
    else
      var init := ns[..|ns| - 1];
      var m := MinMerge(Least(t, visited, target, init), Advertised(t, visited, target, ns[|ns| - 1]));
      assert forall i :: 0 <= i < |init| ==> init[i] == ns[i];
      m
  }

  /** The neighbours among `ns`, in order, that advertise exactly `m` hops. */
  function Advertising(t: Table, visited: seq<NodeId>, target: NodeId, ns: seq<NodeId>, m: nat): (r: seq<NodeId>)
    ensures forall y :: y in r <==> y in ns && Advertised(t, visited, target, y) == Some(m)
    decreases |ns|
  {
    if ns == [] then []
    else
      var init := Advertising(t, visited, target, ns[..|ns| - 1], m);
      var last := ns[|ns| - 1];
      assert forall y :: y in ns <==> y in ns[..|ns| - 1] || y == last;
      if Advertised(t, visited, target, last) == Some(m) then init + [last] else init
  }

  /** Nobody in `ns` advertises `m`, so nobody is selected for it. */
  lemma {:induction false} AdvertisingNone(t: Table, visited: seq<NodeId>, target: NodeId, ns: seq<NodeId>, m: nat)
    requires forall i :: 0 <= i < |ns| ==> Advertised(t, visited, target, ns[i]) != Some(m)
    ensures Advertising(t, visited, target, ns, m) == []
    decreases |ns|
  {
    if ns != [] {
      var init := ns[..|ns| - 1];
      assert forall i :: 0 <= i < |init| ==> init[i] == ns[i];
      AdvertisingNone(t, visited, target, init, m);
    }
  }

  /** The neighbours among `ns`, in order, not yet visited. */
  function Unvisited(ns: seq<NodeId>, visited: seq<NodeId>): (r: seq<NodeId>)
    ensures forall y :: y in r <==> y in ns && y !in visited
    decreases |ns|
  {
    if ns == [] then []
    else
      var init := Unvisited(ns[..|ns| - 1], visited);
      var last := ns[|ns| - 1];
      assert forall y :: y in ns <==> y in ns[..|ns| - 1] || y == last;
      if last in visited then init else init + [last]
  }

  /** The next-hop candidates: the unvisited neighbours that advertise the least
      hop count to the target, or all unvisited neighbours when none advertises one. */
  function NextHops(t: Table, visited: seq<NodeId>, target: NodeId, ns: seq<NodeId>): (r: seq<NodeId>)
    ensures forall y :: y in r ==> y in ns && y !in visited
    ensures r == [] <==> forall y :: y in ns ==> y in visited
  {
    match Least(t, visited, target, ns)
    case Some(m) =>
      var i :| 0 <= i < |ns| && Advertised(t, visited, target, ns[i]) == Some(m);
      assert ns[i] in Advertising(t, visited, target, ns, m);
      Advertising(t, visited, target, ns, m)
    case None =>
      var r := Unvisited(ns, visited);
      assert r != [] ==> r[0] in r;
      r
  }

  /** A neighbour that knows the target bounds the least count from above. */
  lemma LeastBound(t: Table, visited: seq<NodeId>, target: NodeId, ns: seq<NodeId>, w: NodeId)
    requires w in ns && Advertised(t, visited, target, w).Some?
    ensures Least(t, visited, target, ns).Some?
    ensures Least(t, visited, target, ns).value <= Advertised(t, visited, target, w).value
  {
    var k :| 0 <= k < |ns| && ns[k] == w;
  }

  /** Once a least count exists, the candidates are those advertising it. */
  lemma NextHopsAdvertising(t: Table, visited: seq<NodeId>, target: NodeId, ns: seq<NodeId>, m: nat)
    requires Least(t, visited, target, ns) == Some(m)
    ensures NextHops(t, visited, target, ns) == Advertising(t, visited, target, ns, m)
  {
  }

  /** `y` is a neighbour that knows the target with a hop count no other neighbour beats. */
  predicate LeastAdvertiser(t: Table, visited: seq<NodeId>, target: NodeId, ns: seq<NodeId>, y: NodeId) {
    && y in ns && Advertised(t, visited, target, y).Some?
    && forall z :: z in ns && Advertised(t, visited, target, z).Some? ==>
         Advertised(t, visited, target, y).value <= Advertised(t, visited, target, z).value
  }

  /** With a least count `m`, the neighbours no other neighbour beats are those advertising `m`. */
  lemma LeastAdvertiserIsLeast(t: Table, visited: seq<NodeId>, target: NodeId, ns: seq<NodeId>, y: NodeId, m: nat)
    requires Least(t, visited, target, ns) == Some(m)
    ensures LeastAdvertiser(t, visited, target, ns, y) <==> y in ns && Advertised(t, visited, target, y) == Some(m)
  {
    var ay := Advertised(t, visited, target, y);
    if y in ns && ay == Some(m) {
      forall w | w in ns && Advertised(t, visited, target, w).Some?
        ensures ay.value <= Advertised(t, visited, target, w).value
      {
        LeastBound(t, visited, target, ns, w);
      }
    }
    if LeastAdvertiser(t, visited, target, ns, y) {
      LeastBound(t, visited, target, ns, y);
      var j :| 0 <= j < |ns| && Advertised(t, visited, target, ns[j]) == Some(m);
      assert ay.value <= Advertised(t, visited, target, ns[j]).value;
    }
  }

  /** When some unvisited neighbour knows the target, the candidates are exactly
      the neighbours that know it with the least hop count. */
  lemma NextHopsWhenAdvertised(t: Table, visited: seq<NodeId>, target: NodeId, ns: seq<NodeId>, y: NodeId)
    requires exists z :: z in ns && Advertised(t, visited, target, z).Some?
    ensures y in NextHops(t, visited, target, ns) <==> LeastAdvertiser(t, visited, target, ns, y)
  {
    var z :| z in ns && Advertised(t, visited, target, z).Some?;
    LeastBound(t, visited, target, ns, z);
    var m := Least(t, visited, target, ns).value;
    NextHopsAdvertising(t, visited, target, ns, m);
    LeastAdvertiserIsLeast(t, visited, target, ns, y, m);
  }

  /** When no unvisited neighbour knows the target, the candidates are exactly
      the unvisited neighbours. */
  lemma NextHopsWhenNoneAdvertised(t: Table, visited: seq<NodeId>, target: NodeId, ns: seq<NodeId>, y: NodeId)
    requires forall z :: z in ns ==> Advertised(t, visited, target, z).None?
    ensures y in NextHops(t, visited, target, ns) <==> y in ns && y !in visited
  {
    assert forall i :: 0 <= i < |ns| ==> ns[i] in ns;
    assert Least(t, visited, target, ns).None?;
  }

  /** Scanning one more neighbour merges its advertisement into the least count. */
  lemma LeastStep(t: Table, visited: seq<NodeId>, target: NodeId, ns: seq<NodeId>, j: nat)
    requires j < |ns|
    ensures Least(t, visited, target, ns[..j + 1])
         == MinMerge(Least(t, visited, target, ns[..j]), Advertised(t, visited, target, ns[j]))
  {
    assert ns[..j + 1][..j] == ns[..j];
  }

  /** Scanning one more neighbour appends it to those kept for `m` exactly when it advertises `m`. */
  lemma AdvertisingStep(t: Table, visited: seq<NodeId>, target: NodeId, ns: seq<NodeId>, j: nat, m: nat)
    requires j < |ns|
    ensures Advertising(t, visited, target, ns[..j + 1], m)
         == Advertising(t, visited, target, ns[..j], m) + (if Advertised(t, visited, target, ns[j]) == Some(m) then [ns[j]] else [])
  {
    assert ns[..j + 1][..j] == ns[..j];
  }

  /** A neighbour that advertises less than every earlier one is the only one kept for its count. */
  lemma FreshMinimum(t: Table, visited: seq<NodeId>, target: NodeId, ns: seq<NodeId>, j: nat)
    requires j < |ns| && Advertised(t, visited, target, ns[j]).Some?
    requires var least := Least(t, visited, target, ns[..j]);
             least.None? || Advertised(t, visited, target, ns[j]).value < least.value
    ensures Advertising(t, visited, target, ns[..j + 1], Advertised(t, visited, target, ns[j]).value) == [ns[j]]
  {
    var h := Advertised(t, visited, target, ns[j]).value;
    AdvertisingNone(t, visited, target, ns[..j], h);
    AdvertisingStep(t, visited, target, ns, j, h);
  }

  /** Scanning one more neighbour appends it to the fallback list exactly when it is unvisited. */
  lemma UnvisitedStep(ns: seq<NodeId>, visited: seq<NodeId>, j: nat)
    requires j < |ns|
    ensures Unvisited(ns[..j + 1], visited) == Unvisited(ns[..j], visited) + (if ns[j] in visited then [] else [ns[j]])
  {
    assert ns[..j + 1][..j] == ns[..j];
  }

  /** The scan over the neighbours, as written: a running minimum over the
      unvisited neighbours that know the target, resetting the kept neighbours
      on a strictly smaller count. */
  method ScanNeighbours(t: Table, visited: seq<NodeId>, target: NodeId, neighbours: seq<NodeId>)
    returns (minHops: Option<nat>, nextHops: seq<NodeId>)
    ensures minHops == Least(t, visited, target, neighbours)
    ensures nextHops == if minHops.Some? then Advertising(t, visited, target, neighbours, minHops.value) else []
  {
    nextHops := [];
    minHops := None;
    for j := 0 to |neighbours|
      invariant minHops == Least(t, visited, target, neighbours[..j])
      invariant nextHops == if minHops.Some? then Advertising(t, visited, target, neighbours[..j], minHops.value) else []
    {
      var n := neighbours[j];
      LeastStep(t, visited, target, neighbours, j);
      if n in visited || n !in t || target !in t[n] {
        assert Advertised(t, visited, target, n).None?;
        if minHops.Some? {
          AdvertisingStep(t, visited, target, neighbours, j, minHops.value);
        }
        continue;
      }
      var hopsToDest := t[n][target];
      assert Advertised(t, visited, target, n) == Some(hopsToDest);
      if minHops.Some? && hopsToDest > minHops.value {
        AdvertisingStep(t, visited, target, neighbours, j, minHops.value);
        continue;
      }
      if minHops.None? || hopsToDest < minHops.value {
        FreshMinimum(t, visited, target, neighbours, j);
        nextHops := [];
      } else {
        AdvertisingStep(t, visited, target, neighbours, j, hopsToDest);
      }
      minHops := Some(hopsToDest);
      nextHops := nextHops + [n];
    }
    assert neighbours[..|neighbours|] == neighbours;
  }

  /** The selection of one router, as written: the scan, then, when it kept
      nobody, every unvisited neighbour. */
  method SelectNextHops(t: Table, visited: seq<NodeId>, target: NodeId, neighbours: seq<NodeId>)
    returns (nextHops: seq<NodeId>)
    ensures nextHops == NextHops(t, visited, target, neighbours)
  {
    var minHops;
    minHops, nextHops := ScanNeighbours(t, visited, target, neighbours);
    if minHops.Some? {
      var i :| 0 <= i < |neighbours| && Advertised(t, visited, target, neighbours[i]) == minHops;
      assert neighbours[i] in nextHops;
    }
    if |nextHops| == 0 {
      for j := 0 to |neighbours|
        invariant nextHops == Unvisited(neighbours[..j], visited)
      {
        UnvisitedStep(neighbours, visited, j);
        if neighbours[j] !in visited {
          nextHops := nextHops + [neighbours[j]];
        }
      }
      assert neighbours[..|neighbours|] == neighbours;
    }
  }

  /** The next-hop candidates of packet `p` at its current router, given table `t`. */
  function ExperienceCandidates(t: Table, g: Graph, p: Packet): seq<NodeId> {
    NextHops(t, Visit(p.visited, p.current), p.target, Neighbours(g, p.current, p.current))
  }

  /** A next-hop candidate is an unvisited router at the end of an edge from the current one. */
  lemma CandidateIsFreshSuccessor(t: Table, g: Graph, p: Packet, n: NodeId)
    requires n in ExperienceCandidates(t, g, p)
    ensures (p.current, n) in g.weight && n in g.nodes && n != p.current && n !in p.visited
  {
    assert n in Neighbours(g, p.current, p.current) && n !in Visit(p.visited, p.current);
    NeighbourIsSuccessor(g, p.current, p.current, n);
  }

  /** One router's handling of an experience-based packet: stop on arrival;
      otherwise record the router as visited, learn from the path so far, and
      forward to the `draw`-th best next hop, or drop the packet when there is none.
      The time-to-live is neither checked nor decremented. */
  method ExperienceStep(rt: RoutingTable, g: Graph, p: Packet, draw: nat) returns (s: Step, next: Packet)
    modifies rt
    ensures s == Stop(Arrived) <==> p.current == p.target
    ensures s == Stop(NoNeighbour) <==> p.current != p.target && ExperienceCandidates(old(rt.table), g, p) == []
    ensures s != Stop(TimeToLiveExpired)
    ensures s.Hop? ==>
              && s.next in ExperienceCandidates(old(rt.table), g, p)
              && next == p.(current := s.next, visited := Visit(p.visited, p.current))
    ensures p.current == p.target ==> rt.table == old(rt.table)
    ensures p.current != p.target ==>
              rt.table == ApplyAll(old(rt.table), LearnRequests(p.current, Visit(p.visited, p.current)))
  {
    next := p;
    if p.current == p.target {
      return Stop(Arrived), next;
    }
    var known := rt.table;
    var visited := Visit(p.visited, p.current);
    Learn(rt, p.current, visited);
    var neighbours := Neighbours(g, p.current, p.current);
    var nextHops := SelectNextHops(known, visited, p.target, neighbours);
    if |nextHops| == 0 {
      return Stop(NoNeighbour), next;
    }
    var nextHop := nextHops[draw % |nextHops|];
    s := Hop(nextHop);
    next := p.(current := nextHop, visited := visited);
  }

  /** Entries only go down, one table to the next. */
  lemma NoEntryRaisedTransitive(t1: Table, t2: Table, t3: Table)
    requires NoEntryRaised(t1, t2) && NoEntryRaised(t2, t3)
    ensures NoEntryRaised(t1, t3)
  {
  }

  /** One router fewer is left unvisited once `c` is visited. */
  lemma UnvisitedShrinks(nodes: seq<NodeId>, visited: seq<NodeId>, c: NodeId)
    requires c in nodes && c !in visited
    ensures |Elems(nodes) - Elems(Visit(visited, c))| == |Elems(nodes) - Elems(visited)| - 1
  {
    var u := Elems(nodes) - Elems(visited);
    assert Elems(nodes) - Elems(Visit(visited, c)) == u - {c};
    assert c in u;
  }

  /** What every experience-based route from packet `p` satisfies: its hops
      follow edges, never enter a router twice or one `p` had visited, stop at
      the first arrival, never stop for the time-to-live, and are fewer than
      the routers not yet visited. */
  ghost predicate ExperienceRouteOk(g: Graph, p: Packet, r: Route) {
    && IsWalk(g, [p.current] + r.hops)
    && Distinct([p.current] + r.hops)
    && (forall i :: 0 <= i < |r.hops| ==> r.hops[i] !in p.visited)
    && (forall i :: 0 <= i < |r.hops| ==> ([p.current] + r.hops)[i] != p.target)
    && (r.outcome == Arrived <==> ([p.current] + r.hops)[|r.hops|] == p.target)
    && r.outcome != TimeToLiveExpired
    && |r.hops| < |Elems(g.nodes) - Elems(p.visited)|
  }

  /** Putting a new element in front keeps a sequence free of repetitions. */
  lemma ConsDistinct(c: NodeId, w: seq<NodeId>)
    requires Distinct(w) && c !in w
    ensures Distinct([c] + w)
  {
    var cw := [c] + w;
    forall i, j | 0 <= i < j < |cw|
      ensures cw[i] != cw[j]
    {
      assert cw[j] == w[j - 1];
      if i > 0 {
        assert cw[i] == w[i - 1];
      }
    }
  }

  /** A hop to an unvisited router, then hops that avoid everything visited
      after the current router, avoid what was visited before and the current router. */
  lemma HopAvoids(p: Packet, n: NodeId, rest: seq<NodeId>)
    requires p.current !in p.visited && n != p.current && n !in p.visited
    requires forall i :: 0 <= i < |rest| ==> rest[i] !in Visit(p.visited, p.current)
    ensures forall i :: 0 <= i < |[n] + rest| ==> ([n] + rest)[i] !in p.visited
    ensures p.current !in [n] + rest
  {
    var hops := [n] + rest;
    assert p.current in Visit(p.visited, p.current);
    forall i | 1 <= i < |hops|
      ensures hops[i] == rest[i - 1] && hops[i] !in Visit(p.visited, p.current)
    {
    }
  }

  /** A hop to an unvisited successor followed by a good route from there is a good route. */
  lemma HopThenRoute(g: Graph, p: Packet, n: NodeId, rest: Route)
    requires p.current in g.nodes && p.current !in p.visited && p.current != p.target
    requires (p.current, n) in g.weight && n != p.current && n !in p.visited
    requires ExperienceRouteOk(g, p.(current := n, visited := Visit(p.visited, p.current)), rest)
    ensures ExperienceRouteOk(g, p, Route([n] + rest.hops, rest.outcome))
  {
    var hops := [n] + rest.hops;
    var full := [p.current] + hops;
    UnvisitedShrinks(g.nodes, p.visited, p.current);
    WalkCons(g, p.current, hops);
    HopAvoids(p, n, rest.hops);
    ConsDistinct(p.current, hops);
    forall i | 1 <= i <= |hops|
      ensures full[i] == hops[i - 1]
    {
    }
  }

  /** A whole experience-based run, with draws `draws(k)`, `draws(k + 1)`, ...
      It ends before every router has been visited, and no routing-table
      entry goes up on the way. */
  method ExperienceRun(rt: RoutingTable, g: Graph, p: Packet, draws: nat -> nat, k: nat) returns (r: Route)
    requires p.current in g.nodes && p.current !in p.visited
    modifies rt
    ensures ExperienceRouteOk(g, p, r)
    ensures NoEntryRaised(old(rt.table), rt.table)
    decreases |Elems(g.nodes) - Elems(p.visited)|
  {
    ghost var t0 := rt.table;
    var s, next := ExperienceStep(rt, g, p, draws(k));
    if p.current != p.target {
      ApplyAllLowers(t0, LearnRequests(p.current, Visit(p.visited, p.current)));
    }
    match s
    case Stop(outcome) =>
      r := Route([], outcome);
      assert p.current in Elems(g.nodes) - Elems(p.visited);
    case Hop(n) =>
      CandidateIsFreshSuccessor(t0, g, p, n);
      UnvisitedShrinks(g.nodes, p.visited, p.current);
      ghost var t1 := rt.table;
      var rest := ExperienceRun(rt, g, next, draws, k + 1);
      NoEntryRaisedTransitive(t0, t1, rt.table);
      HopThenRoute(g, p, n, rest);
      r := Route([n] + rest.hops, rest.outcome);
  }

  /** The experience-based button: refresh the routing table, then send a packet
      from `source` to `target`. The run visits fewer routers than the graph has. */
  method ExperienceLaunch(rt: RoutingTable, g: Graph, id: nat, source: NodeId, target: NodeId, draws: nat -> nat)
    returns (r: Route)
    requires source in g.nodes
    modifies rt
    ensures IsWalk(g, [source] + r.hops) && Distinct([source] + r.hops)
    ensures r.outcome == Arrived <==> ([source] + r.hops)[|r.hops|] == target
    ensures r.outcome != TimeToLiveExpired
    ensures |r.hops| < |Elems(g.nodes)|
  {
    Refresh(rt, g);
    r := ExperienceRun(rt, g, Launch(id, source, target, ExperienceTimeToLive), draws, 0);
    assert Elems([]) == {};
  }
}
