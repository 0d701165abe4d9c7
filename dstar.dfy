/** The D* Lite navigator of code/d_star.py: an object holding the vertex
    table, the open queue, k_m, the start and goal and the cost grid, whose
    methods replan incrementally as the start moves and costs change. */
module DStar {
  import opened ExtReal
  import opened GridModel
  import opened DStarQueue
  import opened DStarSearch

  /** The locality cutoff of update_costs: a changed cell is re-examined only
      when it lies at distance less than this from the start. */
  const Radius: real := 4.0

  /** A nonzero entry of old_costs - new_costs. A difference involving an
      infinite cost is inf, -inf or nan (inf - inf), none of them zero. */
  predicate Differs(a: Ext, b: Ext) {
    a.Inf? || b.Inf? || a.v != b.v
  }

  /** The cells of ps whose cost differs between grids a and b, in order. */
  function KeepChanged(a: CostGrid, b: CostGrid, ps: seq<Point>): (r: seq<Point>)
    ensures forall p {:trigger p in r} :: p in r <==> p in ps && Differs(Cell(a, p, Inf), Cell(b, p, Inf))
  {
    if ps == [] then []
    else
      (if Differs(Cell(a, ps[0], Inf), Cell(b, ps[0], Inf)) then [ps[0]] else []) + KeepChanged(a, b, ps[1..])
  }

  /** zip(*(a - b).nonzero()): the changed cells of the grid, row by row. */
  function ChangedCells(a: CostGrid, b: CostGrid): (r: seq<Point>)
    ensures forall p {:trigger p in r} :: p in r <==> InBounds(a, p) && Differs(Cell(a, p, Inf), Cell(b, p, Inf))
  {
    KeepChanged(a, b, RowMajor(0, Rows(a), Cols(a)))
  }

  /** The queue holds each point at most once, and holds every point other
      than `except` exactly when its g and rhs differ. */
  ghost predicate Tracks(queue: seq<Entry>, nodes: Table, except: Option<Point>) {
    && (forall p :: |Entries(queue, p)| <= 1)
    && (forall p :: Some(p) != except ==> (Entries(queue, p) != [] <==> Lookup(nodes, p).g != Lookup(nodes, p).rhs))
  }

  /** Popping an entry of a tracking queue: it was its point's only entry,
      its point was inconsistent, and the rest of the queue tracks every
      other point. */
  lemma TracksAfterPop(queue: seq<Entry>, nodes: Table, e: Entry)
    requires Tracks(queue, nodes, None) && e in queue
    ensures Entries(queue, e.point) == [e] && Entries(RemoveFirst(queue, e), e.point) == []
    ensures forall q {:trigger Entries(RemoveFirst(queue, e), q)} :: q != e.point ==> Entries(RemoveFirst(queue, e), q) == Entries(queue, q)
    ensures Lookup(nodes, e.point).g != Lookup(nodes, e.point).rhs
    ensures Tracks(RemoveFirst(queue, e), nodes, Some(e.point))
  {
    var u := e.point;
    EntriesMembers(queue, u);
    assert e in Entries(queue, u);
    assert Entries(queue, u) == [e];
    forall q ensures Entries(RemoveFirst(queue, e), q) == if q == u then [] else Entries(queue, q) {
      EntriesRemoveFirst(queue, e, q);
    }
  }

  /** A queue that tracks every point tracks every point but x. */
  lemma TracksExcept(queue: seq<Entry>, nodes: Table, x: Point)
    requires Tracks(queue, nodes, None)
    ensures Tracks(queue, nodes, Some(x))
  {
  }

  /** Rewriting the vertex of the exempt point keeps the rest tracked. */
  lemma TracksRewrite(queue: seq<Entry>, nodes: Table, u: Point, v: Vertex)
    requires Tracks(queue, nodes, Some(u))
    ensures Tracks(queue, nodes[u := v], Some(u))
  {
    LookupUpdate(nodes, u, v);
  }

  /** Making the exempt, unqueued point consistent makes the queue track
      every point. */
  lemma TracksSettled(queue: seq<Entry>, nodes: Table, u: Point, v: Vertex)
    requires Tracks(queue, nodes, Some(u)) && Entries(queue, u) == [] && v.g == v.rhs
    ensures Tracks(queue, nodes[u := v], None)
  {
    TracksRewrite(queue, nodes, u, v);
  }

  /** Pushing an entry for the exempt, unqueued, inconsistent point makes
      the queue track every point. */
  lemma TracksPush(queue: seq<Entry>, nodes: Table, e: Entry)
    requires Tracks(queue, nodes, Some(e.point)) && Entries(queue, e.point) == []
    requires Lookup(nodes, e.point).g != Lookup(nodes, e.point).rhs
    requires FiniteKeys(queue) && e.key.k1.Fin? && e.key.k2.Fin?
    ensures Tracks(queue + [e], nodes, None) && FiniteKeys(queue + [e])
    ensures forall q {:trigger Entries(queue + [e], q)} ::
              Entries(queue + [e], q) == Entries(queue, q) + if q == e.point then [e] else []
  {
    forall q ensures Entries(queue + [e], q) == Entries(queue, q) + if q == e.point then [e] else [] {
      EntriesPush(queue, e, q);
    }
  }

  /** Rewriting the exempt point and leaving it queued at most once, exactly
      when it is inconsistent, makes the queue track every point. */
  lemma TracksRequeued(queue: seq<Entry>, nodes: Table, queue2: seq<Entry>, nodes2: Table, u: Point)
    requires Tracks(queue, nodes, Some(u))
    requires forall q {:trigger Lookup(nodes2, q)} :: q != u ==> Lookup(nodes2, q) == Lookup(nodes, q)
    requires forall q {:trigger Entries(queue2, q)} :: q != u ==> Entries(queue2, q) == Entries(queue, q)
    requires |Entries(queue2, u)| <= 1
    requires Entries(queue2, u) != [] <==> Lookup(nodes2, u).g != Lookup(nodes2, u).rhs
    ensures Tracks(queue2, nodes2, None)
  {
    forall q ensures |Entries(queue2, q)| <= 1 {
      if q != u {
        assert Entries(queue2, q) == Entries(queue, q);
      }
    }
  }

  /** The cells of ps that update_costs passes to update_vertex: those at
      distance less than the radius from the start, other than the goal. */
  ghost function Nearby(ps: seq<Point>, dist: (Point, Point) -> real, start: Point, goal: Point): set<Point> {
    set q | q in ps && dist(q, start) < Radius && q != goal
  }

  /** One step of the loop of update_costs over ps. */
  lemma NearbyStep(ps: seq<Point>, i: int, dist: (Point, Point) -> real, start: Point, goal: Point)
    requires 0 <= i < |ps|
    ensures Nearby(ps[..i + 1], dist, start, goal) ==
            Nearby(ps[..i], dist, start, goal) + if dist(ps[i], start) < Radius && ps[i] != goal then {ps[i]} else {}
  {
    Slices(ps, i);
  }

  class Navigator {
    /** The open list of (key1, key2, point) entries. */
    var queue: seq<Entry>
    /** The NodeDict of g and rhs values. */
    var nodes: Table
    var costs: CostGrid
    var kM: real
    var startPoint: Point
    var goalPoint: Point
    /** The goal of the previous search; None before the first one. */
    var lastGoal: Option<Point>
    /** distance(p, q), the Euclidean distance between cells. */
    const dist: (Point, Point) -> real

    /** DStarNavigator(): no search has been set up yet. */
    constructor (dist: (Point, Point) -> real)
      ensures this.dist == dist
      ensures queue == [] && nodes == map[] && costs == [] && kM == 0.0 && lastGoal == None
    {
      this.dist := dist;
      queue := [];
      nodes := map[];
      costs := [];
      kM := 0.0;
      startPoint := (0, 0);
      goalPoint := (0, 0);
      lastGoal := None;
    }

    /** heuristic(node, start): the distance from the node's point to start. */
    function Heuristic(p: Point, start: Point): (h: real)
      ensures DistanceLaws(dist) ==> 0.0 <= h && h == dist(start, p)
    {
      dist(p, start)
    }

    /** calculate_key(p) = (min(g, rhs) + h(p, start) + k_m, min(g, rhs)). */
    function CalculateKey(p: Point): (k: Key)
      reads this
      ensures k.k2 == Min(Lookup(nodes, p).g, Lookup(nodes, p).rhs)
      ensures k.k1.Fin? <==> k.k2.Fin?
      ensures k.k1.Fin? ==> k.k1.v == k.k2.v + Heuristic(p, startPoint) + kM
      ensures DistanceLaws(dist) && kM >= 0.0 ==> Le(k.k2, k.k1)
    {
      var m := Min(Lookup(nodes, p).g, Lookup(nodes, p).rhs);
      Key(Add(Add(m, Fin(Heuristic(p, startPoint))), Fin(kM)), m)
    }

    /** The condition of the while loop of compute_shortest_path:
        top_key() < calculate_key(start) or rhs(start) > g(start). */
    predicate Guard()
      reads this
      ensures !Guard() ==> !KeyLt(TopKey(queue), CalculateKey(startPoint))
      ensures !Guard() ==> Le(Lookup(nodes, startPoint).rhs, Lookup(nodes, startPoint).g)
    {
      KeyLt(TopKey(queue), CalculateKey(startPoint)) ||
      Lt(Lookup(nodes, startPoint).g, Lookup(nodes, startPoint).rhs)
    }

    predicate Inconsistent(p: Point)
      reads this
    {
      Lookup(nodes, p).g != Lookup(nodes, p).rhs
    }

    /** The state a search leaves behind: a well-formed grid and distance,
        k_m non-negative, finite queued keys, and the goal with rhs 0. */
    ghost predicate Wf()
      reads this
    {
      && DistanceLaws(dist)
      && Rectangular(costs)
      && kM >= 0.0
      && FiniteKeys(queue)
      && lastGoal == Some(goalPoint)
      && Lookup(nodes, goalPoint).rhs == Fin(0.0)
    }

    /** Wf, every point queued at most once, and every point other than x
        queued exactly when it is inconsistent. */
    ghost predicate ValidExcept(x: Point)
      reads this
    {
      && Wf()
      && Tracks(queue, nodes, Some(x))
    }

    /** The invariant of the navigator between operations. */
    ghost predicate Valid()
      reads this
    {
      && Wf()
      && Tracks(queue, nodes, None)
    }

    /** The D* Lite rhs invariant, with the cells of `pending` exempt. */
    ghost predicate RhsIsLookahead(pending: set<Point>)
      reads this
    {
      RhsOk(nodes, costs, dist, goalPoint, pending)
    }

    /** initialize(start, goal, costs): wipe the search and queue the goal. */
    method Initialize(start: Point, goal: Point, newCosts: CostGrid)
      modifies this
      requires DistanceLaws(dist) && Rectangular(newCosts)
      ensures nodes == map[goal := Vertex(Inf, Fin(0.0))]
      ensures queue == [Entry(Key(Fin(Heuristic(goal, start)), Fin(0.0)), goal)]
      ensures costs == newCosts && kM == 0.0
      ensures startPoint == start && goalPoint == goal && lastGoal == Some(goal)
      ensures Valid() && RhsIsLookahead({})
    {
      costs := newCosts;
      kM := 0.0;
      startPoint := start;
      goalPoint := goal;
      lastGoal := Some(goal);
      nodes := map[goal := Vertex(Inf, Fin(0.0))];
      queue := [Entry(Key(Fin(Heuristic(goal, start)), Fin(0.0)), goal)];
      forall p ensures |Entries(queue, p)| <= 1 && (Entries(queue, p) != [] <==> Inconsistent(p)) {
        assert queue[1..] == [];
      }
      forall p ensures Lookahead(nodes, costs, dist, p) == Inf {
        LookaheadAllInf(nodes, costs, dist, p);
      }
    }

    /** The loop of update_vertex:
        min_rhs = min(min_rhs, g(n) + travel_cost(p, n)) over the neighbours n. */
    method NeighborMin(p: Point) returns (minRhs: Ext)
      ensures minRhs == Lookahead(nodes, costs, dist, p)
    {
      var ns := Neighbors(costs, p);
      minRhs := Inf;
      for i := 0 to |ns|
        invariant minRhs == MinStep(nodes, costs, dist, p, ns[..i])
      {
        Slices(ns, i);
        minRhs := Min(minRhs, Add(Lookup(nodes, ns[i]).g, TravelCost(costs, dist, p, ns[i])));
      }
      WholeSlices(ns);
    }

    /** The queue half of update_vertex: drop p's entry, failing if it has
        more than one, and push p under its fresh key if it is inconsistent. */
    method Requeue(p: Point) returns (ok: bool)
      modifies this`queue
      ensures ok <==> |Entries(old(queue), p)| <= 1
      ensures !ok ==> queue == old(queue)
      ensures forall q {:trigger Entries(queue, q)} :: q != p ==> Entries(queue, q) == Entries(old(queue), q)
      ensures ok ==> Entries(queue, p) == if Inconsistent(p) then [Entry(CalculateKey(p), p)] else []
      ensures FiniteKeys(old(queue)) ==> FiniteKeys(queue)
    {
      var idInQueue := Entries(queue, p);
      if idInQueue != [] {
        if |idInQueue| != 1 {
          return false;
        }
        var x := idInQueue[0];
        EntriesMembers(queue, p);
        assert x in idInQueue;
        assert idInQueue == [x];
        forall q ensures Entries(RemoveFirst(queue, x), q) == if q == p then [] else Entries(queue, q) {
          EntriesRemoveFirst(queue, x, q);
        }
        queue := RemoveFirst(queue, x);
      }
      if Inconsistent(p) {
        var e := Entry(CalculateKey(p), p);
        forall q ensures Entries(queue + [e], q) == Entries(queue, q) + if q == p then [e] else [] {
          EntriesPush(queue, e, q);
        }
        queue := queue + [e];
      }
      ok := true;
    }

    /** update_vertex(p): recompute rhs (except at the goal), then requeue p
        exactly when it is inconsistent. ok is false where update_vertex raises
        because p was queued more than once; rhs has been written by then. */
    method UpdateVertex(p: Point) returns (ok: bool)
      modifies this`nodes, this`queue
      ensures costs == old(costs) && kM == old(kM) && startPoint == old(startPoint)
      ensures goalPoint == old(goalPoint) && lastGoal == old(lastGoal)
      ensures ok <==> |Entries(old(queue), p)| <= 1
      ensures forall q {:trigger Lookup(nodes, q)} :: Lookup(nodes, q).g == Lookup(old(nodes), q).g
      ensures Lookup(nodes, p).rhs ==
                if p == goalPoint then Lookup(old(nodes), p).rhs else Lookahead(old(nodes), old(costs), dist, p)
      ensures forall q {:trigger Lookup(nodes, q)} :: q != p ==> Lookup(nodes, q) == Lookup(old(nodes), q)
      ensures forall q {:trigger Entries(queue, q)} :: q != p ==> Entries(queue, q) == Entries(old(queue), q)
      ensures !ok ==> queue == old(queue)
      ensures ok ==> Entries(queue, p) == if Inconsistent(p) then [Entry(CalculateKey(p), p)] else []
      ensures old(Wf()) ==> Wf()
      ensures old(ValidExcept(p)) ==> ok && Valid()
    {
      var inserted := GetOrInsert(nodes, p);
      if p != goalPoint {
        var minRhs := NeighborMin(p);
        LookupUpdate(inserted.0, p, Vertex(inserted.1.g, minRhs));
        nodes := inserted.0[p := Vertex(inserted.1.g, minRhs)];
      } else {
        nodes := inserted.0;
      }
      ok := Requeue(p);
      if old(ValidExcept(p)) {
        TracksRequeued(old(queue), old(nodes), queue, nodes, p);
      }
    }

    /** An update_vertex(p) that leaves p keyed, and every other point's
        vertex and entries as they were, keeps the points of s keyed: each
        queued once under its current key exactly when it is inconsistent. */
    twostate lemma KeyedAfterUpdate(new s: seq<Point>, new p: Point)
      requires kM == old(kM) && startPoint == old(startPoint)
      requires forall q {:trigger Lookup(nodes, q)} :: q != p ==> Lookup(nodes, q) == Lookup(old(nodes), q)
      requires forall q {:trigger Entries(queue, q)} :: q != p ==> Entries(queue, q) == Entries(old(queue), q)
      requires old(forall q {:trigger Entries(queue, q)} :: q in s ==>
                 Entries(queue, q) == if Inconsistent(q) then [Entry(CalculateKey(q), q)] else [])
      requires Entries(queue, p) == if Inconsistent(p) then [Entry(CalculateKey(p), p)] else []
      ensures forall q {:trigger Entries(queue, q)} :: q in s + [p] ==>
                Entries(queue, q) == if Inconsistent(q) then [Entry(CalculateKey(q), q)] else []
    {
      forall q | q in s + [p]
        ensures Entries(queue, q) == if Inconsistent(q) then [Entry(CalculateKey(q), q)] else []
      {
        if q != p {
          assert old(Entries(queue, q)) == Entries(queue, q);
        }
      }
    }

    /** for neighbor in get_neighbors(u): update_vertex(neighbor) */
    method UpdateNeighbors(u: Point)
      modifies this
      requires Valid()
      ensures Valid()
      ensures costs == old(costs) && kM == old(kM) && startPoint == old(startPoint)
      ensures goalPoint == old(goalPoint) && lastGoal == old(lastGoal)
      ensures forall q {:trigger Lookup(nodes, q)} :: Lookup(nodes, q).g == Lookup(old(nodes), q).g
      ensures forall q {:trigger Lookup(nodes, q)} {:trigger Entries(queue, q)} :: q !in Neighbors(costs, u) ==>
                Lookup(nodes, q) == Lookup(old(nodes), q) && Entries(queue, q) == Entries(old(queue), q)
      ensures forall q {:trigger Entries(queue, q)} :: q in Neighbors(costs, u) ==>
                Entries(queue, q) == if Inconsistent(q) then [Entry(CalculateKey(q), q)] else []
      ensures RhsOn(nodes, costs, dist, goalPoint, NeighborSet(costs, u))
      ensures old(RhsIsLookahead(NeighborSet(costs, u))) ==> RhsIsLookahead({})
    {
      var ns := Neighbors(costs, u);
      ghost var rhsOk := RhsIsLookahead(NeighborSet(costs, u));
      WholeSlices(ns);
      for i := 0 to |ns|
        invariant Valid()
        invariant costs == old(costs) && kM == old(kM) && startPoint == old(startPoint)
        invariant goalPoint == old(goalPoint) && lastGoal == old(lastGoal)
        invariant forall q {:trigger Lookup(nodes, q)} :: Lookup(nodes, q).g == Lookup(old(nodes), q).g
        invariant forall q {:trigger Lookup(nodes, q)} {:trigger Entries(queue, q)} :: q !in ns[..i] ==>
                    Lookup(nodes, q) == Lookup(old(nodes), q) && Entries(queue, q) == Entries(old(queue), q)
        invariant forall q {:trigger Entries(queue, q)} :: q in ns[..i] ==>
                    Entries(queue, q) == if Inconsistent(q) then [Entry(CalculateKey(q), q)] else []
        invariant rhsOk ==> RhsIsLookahead(Elems(ns[i..]))
        invariant RhsOn(nodes, costs, dist, goalPoint, Elems(ns[..i]))
      {
        Slices(ns, i);
        TracksExcept(queue, nodes, ns[i]);
        ghost var n1 := nodes;
        label before:
        var ok := UpdateVertex(ns[i]);
        RhsAfterUpdateAt(n1, nodes, costs, dist, goalPoint, ns, i);
        KeyedAfterUpdate@before(ns[..i], ns[i]);
      }
    }

    /** heappop: remove the least entry, which is the only entry of its
        point, and that point is inconsistent. */
    method PopMin() returns (e: Entry)
      modifies this`queue
      requires Valid() && queue != []
      ensures e == MinEntry(old(queue)) && e.key == TopKey(old(queue))
      ensures queue == RemoveFirst(old(queue), e)
      ensures Entries(old(queue), e.point) == [e] && Entries(queue, e.point) == []
      ensures forall q {:trigger Entries(queue, q)} :: q != e.point ==> Entries(queue, q) == Entries(old(queue), q)
      ensures Inconsistent(e.point) && ValidExcept(e.point)
    {
      e := MinEntry(queue);
      TracksAfterPop(queue, nodes, e);
      queue := RemoveFirst(queue, e);
    }

    /** The overconsistent case: g(u) := rhs(u), then update the neighbours. */
    method Settle(u: Point)
      modifies this
      requires ValidExcept(u) && Entries(queue, u) == []
      requires Lt(Lookup(nodes, u).rhs, Lookup(nodes, u).g)
      ensures Valid()
      ensures costs == old(costs) && kM == old(kM) && startPoint == old(startPoint)
      ensures goalPoint == old(goalPoint) && lastGoal == old(lastGoal)
      ensures Lookup(nodes, u) == Vertex(Lookup(old(nodes), u).rhs, Lookup(old(nodes), u).rhs)
      ensures forall q {:trigger Lookup(nodes, q)} {:trigger Entries(queue, q)} :: q != u && q !in Neighbors(costs, u) ==>
                Lookup(nodes, q) == Lookup(old(nodes), q) && Entries(queue, q) == Entries(old(queue), q)
      ensures forall q {:trigger Lookup(nodes, q)} :: q != u ==> Lookup(nodes, q).g == Lookup(old(nodes), q).g
      ensures forall q {:trigger Entries(queue, q)} :: q == u || q in Neighbors(costs, u) ==>
                Entries(queue, q) == if Inconsistent(q) then [Entry(CalculateKey(q), q)] else []
      ensures RhsOn(nodes, costs, dist, goalPoint, NeighborSet(costs, u))
      ensures old(RhsIsLookahead({})) ==> RhsIsLookahead({})
    {
      ghost var n0 := nodes;
      var rhs := Lookup(nodes, u).rhs;
      TracksSettled(queue, nodes, u, Vertex(rhs, rhs));
      LookupUpdate(nodes, u, Vertex(rhs, rhs));
      nodes := nodes[u := Vertex(rhs, rhs)];
      if RhsOk(n0, costs, dist, goalPoint, {}) {
        RhsAfterNewG(n0, nodes, costs, dist, goalPoint, u);
      }
      UpdateNeighbors(u);
    }

    /** The underconsistent case: g(u) := inf, then update u and its neighbours. */
    method Raise(u: Point)
      modifies this
      requires ValidExcept(u) && Entries(queue, u) == []
      ensures Valid()
      ensures costs == old(costs) && kM == old(kM) && startPoint == old(startPoint)
      ensures goalPoint == old(goalPoint) && lastGoal == old(lastGoal)
      ensures Lookup(nodes, u).g == Inf
      ensures u != goalPoint ==> Lookup(nodes, u).rhs == Lookahead(nodes, costs, dist, u)
      ensures u == goalPoint ==> Lookup(nodes, u).rhs == Lookup(old(nodes), u).rhs
      ensures forall q {:trigger Lookup(nodes, q)} {:trigger Entries(queue, q)} :: q != u && q !in Neighbors(costs, u) ==>
                Lookup(nodes, q) == Lookup(old(nodes), q) && Entries(queue, q) == Entries(old(queue), q)
      ensures forall q {:trigger Lookup(nodes, q)} :: q != u ==> Lookup(nodes, q).g == Lookup(old(nodes), q).g
      ensures forall q {:trigger Entries(queue, q)} :: q == u || q in Neighbors(costs, u) ==>
                Entries(queue, q) == if Inconsistent(q) then [Entry(CalculateKey(q), q)] else []
      ensures RhsOn(nodes, costs, dist, goalPoint, NeighborSet(costs, u))
      ensures old(RhsIsLookahead({})) ==> RhsIsLookahead({})
    {
      ghost var n0 := nodes;
      TracksRewrite(queue, nodes, u, Vertex(Inf, Lookup(nodes, u).rhs));
      LookupUpdate(nodes, u, Vertex(Inf, Lookup(nodes, u).rhs));
      nodes := nodes[u := Vertex(Inf, Lookup(nodes, u).rhs)];
      ghost var n1 := nodes;
      if RhsOk(n0, costs, dist, goalPoint, {}) {
        RhsAfterNewG(n0, n1, costs, dist, goalPoint, u);
      }
      var ok := UpdateVertex(u);
      RhsAfterUpdate(n1, nodes, costs, dist, goalPoint, u);
      ghost var n2 := nodes;
      UpdateNeighbors(u);
      assert Lookup(nodes, u) == Lookup(n2, u);
      MinStepSameG(n1, nodes, costs, dist, u, Neighbors(costs, u));
      LookaheadSameG(n2, nodes, costs, dist);
    }

    /** One iteration of the loop of compute_shortest_path: pop the least
        entry u; re-push it under its fresh key if its key was stale;
        otherwise make an overconsistent u consistent (g := rhs), or raise an
        underconsistent u to g := inf and update it, and update its neighbours. */
    method ProcessTop()
      modifies this
      requires Valid() && queue != []
      ensures Valid()
      ensures costs == old(costs) && kM == old(kM) && startPoint == old(startPoint)
      ensures goalPoint == old(goalPoint) && lastGoal == old(lastGoal)
      ensures var e := old(MinEntry(queue)); var u := e.point; var stale := KeyLt(e.key, old(CalculateKey(u)));
        && (stale ==> nodes == old(nodes) && queue == RemoveFirst(old(queue), e) + [Entry(old(CalculateKey(u)), u)])
        && (!stale && old(Lt(Lookup(nodes, u).rhs, Lookup(nodes, u).g)) ==>
              Lookup(nodes, u) == old(Vertex(Lookup(nodes, u).rhs, Lookup(nodes, u).rhs)))
        && (!stale && !old(Lt(Lookup(nodes, u).rhs, Lookup(nodes, u).g)) ==>
              Lookup(nodes, u).g == Inf &&
              (u != goalPoint ==> Lookup(nodes, u).rhs == Lookahead(nodes, costs, dist, u)))
        && (!stale ==>
              && (forall q {:trigger Lookup(nodes, q)} :: q != u ==> Lookup(nodes, q).g == Lookup(old(nodes), q).g)
              && RhsOn(nodes, costs, dist, goalPoint, NeighborSet(costs, u))
              && (forall q {:trigger Entries(queue, q)} :: q == u || q in Neighbors(costs, u) ==>
                    Entries(queue, q) == if Inconsistent(q) then [Entry(CalculateKey(q), q)] else []))
      ensures var u := old(MinEntry(queue)).point;
        forall q {:trigger Lookup(nodes, q)} {:trigger Entries(queue, q)} :: q != u && q !in Neighbors(costs, u) ==>
          Lookup(nodes, q) == Lookup(old(nodes), q) && Entries(queue, q) == Entries(old(queue), q)
      ensures old(RhsIsLookahead({})) ==> RhsIsLookahead({})
    {
      var e := PopMin();
      var u := e.point;
      var k := CalculateKey(u);
      if KeyLt(e.key, k) {
        var repushed := Entry(k, u);
        TracksPush(queue, nodes, repushed);
        queue := queue + [repushed];
      } else if Lt(Lookup(nodes, u).rhs, Lookup(nodes, u).g) {
        Settle(u);
      } else {
        Raise(u);
      }
    }

    /** A loop guard that holds finds the queue non-empty, so the pop of
        compute_shortest_path never meets an empty queue. */
    lemma GuardedQueueNonEmpty()
      requires Valid() && Guard()
      ensures queue != []
    {
      assert Entries([], startPoint) == [];
      assert !KeyLt(TopOfEmpty, CalculateKey(startPoint));
    }

    /** compute_shortest_path(): process the queue until the guard fails.
        done is false when the step budget ran out first. */
    method ComputeShortestPath(fuel: nat) returns (done: bool)
      modifies this
      requires Valid()
      ensures Valid()
      ensures costs == old(costs) && kM == old(kM) && startPoint == old(startPoint)
      ensures goalPoint == old(goalPoint) && lastGoal == old(lastGoal)
      ensures done <==> !Guard()
      ensures done ==> !KeyLt(TopKey(queue), CalculateKey(startPoint))
      ensures done ==> Le(Lookup(nodes, startPoint).rhs, Lookup(nodes, startPoint).g)
      ensures old(RhsIsLookahead({})) ==> RhsIsLookahead({})
    {
      ghost var rhsOk := RhsIsLookahead({});
      var n := fuel;
      while Guard()
        invariant Valid()
        invariant costs == old(costs) && kM == old(kM) && startPoint == old(startPoint)
        invariant goalPoint == old(goalPoint) && lastGoal == old(lastGoal)
        invariant rhsOk ==> RhsIsLookahead({})
        decreases n
      {
        if n == 0 {
          return false;
        }
        GuardedQueueNonEmpty();
        ProcessTop();
        n := n - 1;
      }
      done := true;
    }

    /** update_costs(costs): install the new grid and update every changed
        cell near the start other than the goal. */
    method UpdateCosts(newCosts: CostGrid)
      modifies this
      requires Valid() && SameShape(costs, newCosts)
      ensures Valid()
      ensures costs == newCosts && kM == old(kM) && startPoint == old(startPoint)
      ensures goalPoint == old(goalPoint) && lastGoal == old(lastGoal)
      ensures forall q {:trigger Lookup(nodes, q)} :: Lookup(nodes, q).g == Lookup(old(nodes), q).g
      ensures var targets := Nearby(ChangedCells(old(costs), newCosts), dist, startPoint, goalPoint);
        && (forall q {:trigger Lookup(nodes, q)} {:trigger Entries(queue, q)} :: q !in targets ==>
              Lookup(nodes, q) == Lookup(old(nodes), q) && Entries(queue, q) == Entries(old(queue), q))
        && RhsOn(nodes, newCosts, dist, goalPoint, targets)
        && (forall q {:trigger Entries(queue, q)} :: q in targets ==>
              Entries(queue, q) == if Inconsistent(q) then [Entry(CalculateKey(q), q)] else [])
    {
      var cells := ChangedCells(costs, newCosts);
      costs := newCosts;
      ghost var updated: seq<Point> := [];
      WholeSlices(cells);
      for i := 0 to |cells|
        invariant Valid()
        invariant costs == newCosts && kM == old(kM) && startPoint == old(startPoint)
        invariant goalPoint == old(goalPoint) && lastGoal == old(lastGoal)
        invariant forall q {:trigger Lookup(nodes, q)} :: Lookup(nodes, q).g == Lookup(old(nodes), q).g
        invariant forall q {:trigger Lookup(nodes, q)} {:trigger Entries(queue, q)} ::
                    q !in Nearby(cells[..i], dist, startPoint, goalPoint) ==>
                    Lookup(nodes, q) == Lookup(old(nodes), q) && Entries(queue, q) == Entries(old(queue), q)
        invariant RhsOn(nodes, costs, dist, goalPoint, Nearby(cells[..i], dist, startPoint, goalPoint))
        invariant forall q {:trigger q in updated} :: q in Nearby(cells[..i], dist, startPoint, goalPoint) ==> q in updated
        invariant forall q {:trigger Entries(queue, q)} :: q in updated ==>
                    Entries(queue, q) == if Inconsistent(q) then [Entry(CalculateKey(q), q)] else []
      {
        NearbyStep(cells, i, dist, startPoint, goalPoint);
        var c := cells[i];
        if dist(c, startPoint) < Radius && c != goalPoint {
          TracksExcept(queue, nodes, c);
          ghost var n1 := nodes;
          label before:
          var ok := UpdateVertex(c);
          RhsAfterUpdate(n1, nodes, costs, dist, goalPoint, c);
          KeyedAfterUpdate@before(updated, c);
          updated := updated + [c];
        }
      }
    }

    /** The inner loop of extract_path: the neighbour with the least finite
        g + travel cost, the first such in neighbour order. */
    method BestNeighbor(current: Point) returns (next: Option<Point>)
      ensures next == Next(nodes, costs, dist, current)
    {
      var ns := Neighbors(costs, current);
      var minRhs := Inf;
      next := None;
      for i := 0 to |ns|
        invariant next == Choose(nodes, costs, dist, current, ns[..i])
        invariant minRhs == ChoiceCost(nodes, costs, dist, current, next)
      {
        ChooseSnoc(nodes, costs, dist, current, ns, i);
        var neighborCost := Add(Lookup(nodes, ns[i]).g, TravelCost(costs, dist, current, ns[i]));
        if Lt(neighborCost, minRhs) {
          minRhs := neighborCost;
          next := Some(ns[i]);
        }
      }
      WholeSlices(ns);
    }

    /** What extract_path establishes about its outcome: a path is the greedy
        descent from the start, reaching the goal at its end and not before,
        through 8-neighbours and finite step costs; a failure is a greedy
        descent that reaches, short of the goal, a cell with no finite step. */
    ghost predicate Extracted(r: PlanResult)
      reads this
    {
      && (r.Path? ==>
            && GreedyWalk(NextStep(nodes, costs, dist), startPoint, r.points)
            && EndOf(startPoint, r.points) == goalPoint
            && (forall i :: 0 <= i < |r.points| - 1 ==> r.points[i] != goalPoint)
            && (r.points == [] <==> startPoint == goalPoint)
            && Walk(costs, startPoint, r.points)
            && FiniteSteps(nodes, costs, dist, startPoint, r.points))
      && (r.NotFound? ==>
            exists ps :: GreedyWalk(NextStep(nodes, costs, dist), startPoint, ps) && goalPoint !in ps &&
                         Stuck(nodes, costs, dist, goalPoint, EndOf(startPoint, ps)))
    }

    /** extract_path(): follow the best neighbour from the start to the goal. */
    method ExtractPath(fuel: nat) returns (r: PlanResult)
      ensures Extracted(r)
    {
      ghost var next := NextStep(nodes, costs, dist);
      var current := startPoint;
      var path: seq<Point> := [];
      var n := fuel;
      while current != goalPoint
        invariant GreedyWalk(next, startPoint, path) && EndOf(startPoint, path) == current
        invariant forall i :: 0 <= i < |path| - 1 ==> path[i] != goalPoint
        invariant path != [] ==> startPoint != goalPoint
        decreases n
      {
        if n == 0 {
          return Exhausted;
        }
        var nextPoint := BestNeighbor(current);
        assert next(current) == Next(nodes, costs, dist, current);
        if nextPoint.Some? {
          GreedyWalkExtend(next, startPoint, path, nextPoint.value);
          path := path + [nextPoint.value];
          current := nextPoint.value;
        } else {
          assert goalPoint !in path;
          assert GreedyWalk(next, startPoint, path) && Stuck(nodes, costs, dist, goalPoint, EndOf(startPoint, path));
          return NotFound;
        }
        n := n - 1;
      }
      NextStepSound(nodes, costs, dist);
      GreedyWalkIsWalk(next, nodes, costs, dist, startPoint, path);
      r := Path(path);
    }

    /** find_path(start, goal, costs): start over on a new goal; otherwise
        take in the new costs, advance k_m by the distance the start moved,
        and repair the search; then extract the path. */
    method FindPath(start: Point, goal: Point, newCosts: CostGrid, fuel: nat) returns (r: PlanResult)
      modifies this
      requires DistanceLaws(dist) && Rectangular(newCosts)
      requires lastGoal == None || Valid()
      requires lastGoal == Some(goal) ==> SameShape(costs, newCosts)
      ensures Valid()
      ensures startPoint == start && goalPoint == goal && costs == newCosts && lastGoal == Some(goal)
      ensures old(lastGoal) != Some(goal) ==> kM == 0.0 && RhsIsLookahead({})
      ensures old(lastGoal) == Some(goal) ==> kM == old(kM) + Heuristic(old(startPoint), start) && kM >= old(kM)
      ensures !r.Exhausted? ==> !Guard()
      ensures !r.Exhausted? ==> !KeyLt(TopKey(queue), CalculateKey(startPoint))
      ensures !r.Exhausted? ==> Le(Lookup(nodes, startPoint).rhs, Lookup(nodes, startPoint).g)
      ensures Extracted(r)
    {
      var done: bool;
      if lastGoal != Some(goal) {
        Initialize(start, goal, newCosts);
        done := ComputeShortestPath(fuel);
      } else {
        UpdateCosts(newCosts);
        kM := kM + Heuristic(startPoint, start);
        startPoint := start;
        done := ComputeShortestPath(fuel);
      }
      if !done {
        return Exhausted;
      }
      r := ExtractPath(fuel);
    }
  }
}
