/** The pure part of the D* Lite replanner: the vertex table, 8-connected
    neighbours, travel costs, the one-step lookahead (rhs) and the greedy
    path descent, all as functions of the planner's state. */
module DStarSearch {
  import opened ExtReal
  import opened GridModel

  /** The cost grid D* Lite plans over; an infinite cell is an obstacle. */
  type CostGrid = Grid<Ext>

  /** The g and rhs fields of one Node. */
  datatype Vertex = Vertex(g: Ext, rhs: Ext)

  /** A node as Node.__init__ builds it: g = rhs = inf. */
  const FreshVertex := Vertex(Inf, Inf)

  /** The NodeDict: a map from cells to their vertex. */
  type Table = map<Point, Vertex>

  /** The vertex a read of nodes[p] sees: a missing point reads as a fresh node. */
  function Lookup(nodes: Table, p: Point): (v: Vertex)
    ensures p in nodes ==> v == nodes[p]
    ensures p !in nodes ==> v.g == Inf && v.rhs == Inf
  {
    if p in nodes then nodes[p] else FreshVertex
  }

  /** Writing nodes[u] changes what a lookup of u sees and nothing else. */
  lemma LookupUpdate(nodes: Table, u: Point, v: Vertex)
    ensures Lookup(nodes[u := v], u) == v
    ensures forall q {:trigger Lookup(nodes[u := v], q)} :: q != u ==> Lookup(nodes[u := v], q) == Lookup(nodes, q)
  {
  }

  /** NodeDict.__missing__: nodes[p] inserts a fresh node for a missing point
      and returns it; no lookup of any point sees a different value. */
  function GetOrInsert(nodes: Table, p: Point): (r: (Table, Vertex))
    ensures r.0.Keys == nodes.Keys + {p}
    ensures p in r.0 && r.0[p] == r.1 && r.1 == Lookup(nodes, p)
    ensures p in nodes ==> r.0 == nodes
    ensures p !in nodes ==> r.1 == FreshVertex
    ensures forall q :: Lookup(r.0, q) == Lookup(nodes, q)
  {
    if p in nodes then (nodes, nodes[p]) else (nodes[p := FreshVertex], FreshVertex)
  }

  /** Chebyshev (king-move) distance between two cells. */
  function Chebyshev(p: Point, q: Point): nat {
    var dx, dy := Abs(p.0 - q.0), Abs(p.1 - q.1);
    if dx < dy then dy else dx
  }

  /** The eight surrounding cells, in the order get_neighbors lists them. */
  function Around(p: Point): seq<Point> {
    [(p.0 + 1, p.1), (p.0 + 1, p.1 + 1), (p.0, p.1 + 1), (p.0 - 1, p.1 + 1),
     (p.0 - 1, p.1), (p.0 - 1, p.1 - 1), (p.0, p.1 - 1), (p.0 + 1, p.1 - 1)]
  }

  /** get_neighbors: the in-bounds cells among the eight around p. */
  function Neighbors(costs: CostGrid, p: Point): (r: seq<Point>)
    ensures |r| <= 8
    ensures forall n {:trigger n in r} :: n in r ==> InBounds(costs, n) && Chebyshev(p, n) == 1
    ensures p !in r
  {
    var around := Around(p);
    assert forall n :: n in around ==> Chebyshev(p, n) == 1;
    KeepInBounds(costs, around)
  }

  /** get_neighbors lists no cell twice. */
  lemma NeighborsDistinct(costs: CostGrid, p: Point)
    ensures Distinct(Neighbors(costs, p))
  {
    KeepInBoundsDistinct(costs, Around(p));
  }

  /** get_neighbors misses no in-bounds cell at Chebyshev distance 1. */
  lemma NeighborsComplete(costs: CostGrid, p: Point, n: Point)
    requires InBounds(costs, n) && Chebyshev(p, n) == 1
    ensures n in Neighbors(costs, p)
  {
    assert n in Around(p);
  }

  /** Being neighbours is symmetric between in-bounds cells. */
  lemma NeighborsSymmetric(costs: CostGrid, p: Point, q: Point)
    requires InBounds(costs, p) && q in Neighbors(costs, p)
    ensures p in Neighbors(costs, q)
  {
    NeighborsComplete(costs, q, p);
  }

  /** travel_cost(p1, p2): the cost of the destination cell plus the step length. */
  function TravelCost(costs: CostGrid, dist: (Point, Point) -> real, p1: Point, p2: Point): Ext {
    Add(Cell(costs, p2, Inf), Fin(dist(p1, p2)))
  }

  /** travel_cost(p1, p2) is infinite exactly when p2 is off the grid or an
      obstacle; otherwise it is p2's cost plus the distance, so at least p2's cost. */
  lemma TravelCostLaws(costs: CostGrid, dist: (Point, Point) -> real, p1: Point, p2: Point)
    ensures var r := TravelCost(costs, dist, p1, p2);
            && (r.Inf? <==> Cell(costs, p2, Inf).Inf?)
            && (Rectangular(costs) && !InBounds(costs, p2) ==> r.Inf?)
            && (r.Fin? ==> r.v == Cell(costs, p2, Inf).v + dist(p1, p2))
            && (DistanceLaws(dist) && r.Fin? ==> r.v >= Cell(costs, p2, Inf).v)
  {
  }

  /** nodes[n].g + travel_cost(p, n): the cost to the goal of leaving p through n. */
  function StepCost(nodes: Table, costs: CostGrid, dist: (Point, Point) -> real, p: Point, n: Point): Ext
  {
    Add(Lookup(nodes, n).g, TravelCost(costs, dist, p, n))
  }

  /** The value of min_rhs after `min_rhs = min(min_rhs, ...)` over ns, from inf:
      the least step cost through ns (inf when ns is empty). */
  function MinStep(nodes: Table, costs: CostGrid, dist: (Point, Point) -> real, p: Point, ns: seq<Point>): (r: Ext)
    ensures forall n :: n in ns ==> Le(r, StepCost(nodes, costs, dist, p, n))
    ensures ns == [] ==> r == Inf
    ensures ns != [] ==> exists n :: n in ns && r == StepCost(nodes, costs, dist, p, n)
  {
    if ns == [] then Inf
    else
      var init := ns[..|ns| - 1];
      var last := ns[|ns| - 1];
      assert ns == init + [last];
      var m := MinStep(nodes, costs, dist, p, init);
      var c := StepCost(nodes, costs, dist, p, last);
      assert forall n :: n in init ==> Le(Min(m, c), StepCost(nodes, costs, dist, p, n)) by {
        forall n | n in init ensures Le(Min(m, c), StepCost(nodes, costs, dist, p, n)) {
          LeTransitive(Min(m, c), m, StepCost(nodes, costs, dist, p, n));
        }
      }
      Min(m, c)
  }

  /** The rhs update_vertex assigns to a non-goal point: the minimum over its
      in-bounds neighbours n of g(n) + costs[n] + distance(p, n). */
  function Lookahead(nodes: Table, costs: CostGrid, dist: (Point, Point) -> real, p: Point): Ext
  {
    MinStep(nodes, costs, dist, p, Neighbors(costs, p))
  }

  /** MinStep over ns depends only on the g values of the cells in ns. */
  lemma {:induction false} MinStepSameG(n1: Table, n2: Table, costs: CostGrid, dist: (Point, Point) -> real,
                                        p: Point, ns: seq<Point>)
    requires forall q :: q in ns ==> Lookup(n1, q).g == Lookup(n2, q).g
    ensures MinStep(n1, costs, dist, p, ns) == MinStep(n2, costs, dist, p, ns)
  {
    if ns != [] {
      MinStepSameG(n1, n2, costs, dist, p, ns[..|ns| - 1]);
    }
  }

  /** The lookahead depends on the g values only. */
  lemma LookaheadSameG(n1: Table, n2: Table, costs: CostGrid, dist: (Point, Point) -> real)
    requires forall q :: Lookup(n1, q).g == Lookup(n2, q).g
    ensures forall p :: Lookahead(n1, costs, dist, p) == Lookahead(n2, costs, dist, p)
  {
    forall p ensures Lookahead(n1, costs, dist, p) == Lookahead(n2, costs, dist, p) {
      MinStepSameG(n1, n2, costs, dist, p, Neighbors(costs, p));
    }
  }

  /** Changing the g value of u alone changes the lookahead of u's neighbours only. */
  lemma LookaheadLocal(n1: Table, n2: Table, costs: CostGrid, dist: (Point, Point) -> real, u: Point)
    requires forall q :: q != u ==> Lookup(n1, q).g == Lookup(n2, q).g
    ensures forall p :: InBounds(costs, p) && p !in Neighbors(costs, u) ==>
              Lookahead(n1, costs, dist, p) == Lookahead(n2, costs, dist, p)
  {
    forall p | InBounds(costs, p) && p !in Neighbors(costs, u)
      ensures Lookahead(n1, costs, dist, p) == Lookahead(n2, costs, dist, p)
    {
      if u in Neighbors(costs, p) {
        NeighborsSymmetric(costs, p, u);
      }
      MinStepSameG(n1, n2, costs, dist, p, Neighbors(costs, p));
    }
  }

  /** While every g is infinite, so is every lookahead. */
  lemma LookaheadAllInf(nodes: Table, costs: CostGrid, dist: (Point, Point) -> real, p: Point)
    requires forall q :: Lookup(nodes, q).g == Inf
    ensures Lookahead(nodes, costs, dist, p) == Inf
  {
  }

  /** The in-bounds neighbours of u, as a set. */
  ghost function NeighborSet(costs: CostGrid, u: Point): set<Point> {
    Elems(Neighbors(costs, u))
  }

  /** The D* Lite rhs invariant: every in-bounds cell other than the goal
      and outside `pending` has rhs equal to its one-step lookahead. */
  ghost predicate RhsOk(nodes: Table, costs: CostGrid, dist: (Point, Point) -> real, goal: Point, pending: set<Point>) {
    forall p {:trigger Lookahead(nodes, costs, dist, p)} :: InBounds(costs, p) && p != goal && p !in pending ==>
      Lookup(nodes, p).rhs == Lookahead(nodes, costs, dist, p)
  }

  /** Every cell of `done` other than the goal has rhs equal to its lookahead. */
  ghost predicate RhsOn(nodes: Table, costs: CostGrid, dist: (Point, Point) -> real, goal: Point, done: set<Point>) {
    forall p {:trigger Lookahead(nodes, costs, dist, p)} :: p in done && p != goal ==>
      Lookup(nodes, p).rhs == Lookahead(nodes, costs, dist, p)
  }

  /** Setting p's rhs to its lookahead, leaving every g alone, takes p off the
      pending set and adds it to the done set. */
  lemma RhsAfterUpdate(n1: Table, n2: Table, costs: CostGrid, dist: (Point, Point) -> real, goal: Point, p: Point)
    requires forall q :: Lookup(n2, q).g == Lookup(n1, q).g
    requires forall q :: q != p ==> Lookup(n2, q).rhs == Lookup(n1, q).rhs
    requires p != goal ==> Lookup(n2, p).rhs == Lookahead(n1, costs, dist, p)
    ensures forall pending :: RhsOk(n1, costs, dist, goal, pending) ==> RhsOk(n2, costs, dist, goal, pending - {p})
    ensures forall done :: RhsOn(n1, costs, dist, goal, done) ==> RhsOn(n2, costs, dist, goal, done + {p})
  {
    LookaheadSameG(n1, n2, costs, dist);
  }

  /** One step of a loop updating the cells of ns in turn: after the update
      of ns[i], the cells from i + 1 on are pending and those up to i done. */
  lemma RhsAfterUpdateAt(n1: Table, n2: Table, costs: CostGrid, dist: (Point, Point) -> real, goal: Point,
                         ns: seq<Point>, i: int)
    requires 0 <= i < |ns|
    requires forall q :: Lookup(n2, q).g == Lookup(n1, q).g
    requires forall q :: q != ns[i] ==> Lookup(n2, q).rhs == Lookup(n1, q).rhs
    requires ns[i] != goal ==> Lookup(n2, ns[i]).rhs == Lookahead(n1, costs, dist, ns[i])
    ensures RhsOk(n1, costs, dist, goal, Elems(ns[i..])) ==> RhsOk(n2, costs, dist, goal, Elems(ns[i + 1..]))
    ensures RhsOn(n1, costs, dist, goal, Elems(ns[..i])) ==> RhsOn(n2, costs, dist, goal, Elems(ns[..i + 1]))
  {
    RhsAfterUpdate(n1, n2, costs, dist, goal, ns[i]);
    Slices(ns, i);
    assert Elems(ns[i..]) - {ns[i]} <= Elems(ns[i + 1..]);
    assert Elems(ns[..i]) + {ns[i]} == Elems(ns[..i + 1]);
  }

  /** Changing the g of u alone, under the rhs invariant, leaves only u's
      neighbours pending. */
  lemma RhsAfterNewG(n1: Table, n2: Table, costs: CostGrid, dist: (Point, Point) -> real, goal: Point, u: Point)
    requires RhsOk(n1, costs, dist, goal, {})
    requires forall q :: q != u ==> Lookup(n2, q) == Lookup(n1, q)
    requires Lookup(n2, u).rhs == Lookup(n1, u).rhs
    ensures RhsOk(n2, costs, dist, goal, NeighborSet(costs, u))
  {
    LookaheadLocal(n1, n2, costs, dist, u);
  }

  /** The cost min_rhs holds beside a chosen next_point (inf for None). */
  function ChoiceCost(nodes: Table, costs: CostGrid, dist: (Point, Point) -> real, c: Point, next: Option<Point>): Ext
  {
    if next.None? then Inf else StepCost(nodes, costs, dist, c, next.value)
  }

  /** The next_point the inner loop of extract_path settles on after scanning ns
      with a strict `<` from min_rhs = inf, next_point = None. */
  function Choose(nodes: Table, costs: CostGrid, dist: (Point, Point) -> real, c: Point, ns: seq<Point>): (r: Option<Point>)
    ensures r.Some? ==> r.value in ns && StepCost(nodes, costs, dist, c, r.value).Fin?
    ensures r.None? ==> forall n :: n in ns ==> StepCost(nodes, costs, dist, c, n) == Inf
  {
    if ns == [] then None
    else
      var init := ns[..|ns| - 1];
      var last := ns[|ns| - 1];
      assert ns == init + [last];
      var prev := Choose(nodes, costs, dist, c, init);
      if Lt(StepCost(nodes, costs, dist, c, last), ChoiceCost(nodes, costs, dist, c, prev)) then Some(last) else prev
  }

  /** One more step of the scan: the choice over ns[..i + 1] from the choice over ns[..i]. */
  lemma ChooseSnoc(nodes: Table, costs: CostGrid, dist: (Point, Point) -> real, c: Point, ns: seq<Point>, i: int)
    requires 0 <= i < |ns|
    ensures Choose(nodes, costs, dist, c, ns[..i + 1]) ==
            var prev := Choose(nodes, costs, dist, c, ns[..i]);
            if Lt(StepCost(nodes, costs, dist, c, ns[i]), ChoiceCost(nodes, costs, dist, c, prev)) then Some(ns[i]) else prev
  {
    Slices(ns, i);
  }

  /** What the scan chooses: nothing exactly when every step cost is infinite;
      otherwise the first neighbour of least, finite, step cost. */
  lemma {:induction false} ChooseIsFirstMinimum(nodes: Table, costs: CostGrid, dist: (Point, Point) -> real,
                                                c: Point, ns: seq<Point>)
    ensures var r := Choose(nodes, costs, dist, c, ns);
      && (r.None? <==> forall n :: n in ns ==> StepCost(nodes, costs, dist, c, n) == Inf)
      && (r.Some? ==> StepCost(nodes, costs, dist, c, r.value).Fin?)
      && (r.Some? ==> forall n :: n in ns ==> Le(StepCost(nodes, costs, dist, c, r.value), StepCost(nodes, costs, dist, c, n)))
      && (r.Some? ==> exists i :: 0 <= i < |ns| && ns[i] == r.value &&
                        forall j :: 0 <= j < i ==> Lt(StepCost(nodes, costs, dist, c, r.value), StepCost(nodes, costs, dist, c, ns[j])))
  {
    if ns != [] {
      var init := ns[..|ns| - 1];
      var last := ns[|ns| - 1];
      assert ns == init + [last];
      ChooseIsFirstMinimum(nodes, costs, dist, c, init);
      var prev := Choose(nodes, costs, dist, c, init);
      var lc := StepCost(nodes, costs, dist, c, last);
      if Lt(lc, ChoiceCost(nodes, costs, dist, c, prev)) {
        assert ns[|ns| - 1] == last;
        if prev.Some? {
          forall n | n in ns ensures Le(lc, StepCost(nodes, costs, dist, c, n)) {
            if n in init {
              LeTransitive(lc, StepCost(nodes, costs, dist, c, prev.value), StepCost(nodes, costs, dist, c, n));
            }
          }
          var i :| 0 <= i < |init| && init[i] == prev.value &&
            forall j :: 0 <= j < i ==> Lt(StepCost(nodes, costs, dist, c, prev.value), StepCost(nodes, costs, dist, c, init[j]));
          forall j | 0 <= j < |ns| - 1 ensures Lt(lc, StepCost(nodes, costs, dist, c, ns[j])) {
            assert ns[j] == init[j];
            assert Le(StepCost(nodes, costs, dist, c, prev.value), StepCost(nodes, costs, dist, c, init[j]));
          }
        } else {
          forall j | 0 <= j < |ns| - 1 ensures Lt(lc, StepCost(nodes, costs, dist, c, ns[j])) {
            assert ns[j] in init;
          }
        }
      } else {
        if prev.Some? {
          var i :| 0 <= i < |init| && init[i] == prev.value &&
            forall j :: 0 <= j < i ==> Lt(StepCost(nodes, costs, dist, c, prev.value), StepCost(nodes, costs, dist, c, init[j]));
          assert ns[i] == prev.value;
          forall j | 0 <= j < i ensures Lt(StepCost(nodes, costs, dist, c, prev.value), StepCost(nodes, costs, dist, c, ns[j])) {
            assert ns[j] == init[j];
          }
        }
      }
    }
  }

  /** Outcome of a path extraction. */
  datatype PlanResult =
    | Path(points: seq<Point>)  // the cells after start, up to and including the goal
    | NotFound                  // ValueError('Could not find path')
    | Exhausted                 // the step budget ran out first

  /** The neighbour extract_path steps to from c, if any. */
  function Next(nodes: Table, costs: CostGrid, dist: (Point, Point) -> real, c: Point): (r: Option<Point>)
    ensures r.Some? ==> r.value in Neighbors(costs, c) && StepCost(nodes, costs, dist, c, r.value).Fin?
  {
    Choose(nodes, costs, dist, c, Neighbors(costs, c))
  }

  /** One step of extract_path as a function: an arrow so that reasoning about
      whole walks does not unfold the neighbour scan. */
  function NextStep(nodes: Table, costs: CostGrid, dist: (Point, Point) -> real): Point -> Option<Point> {
    q => Next(nodes, costs, dist, q)
  }

  /** Every step `next` takes goes to a neighbour through a finite step cost. */
  ghost predicate SoundSteps(next: Point -> Option<Point>, nodes: Table, costs: CostGrid, dist: (Point, Point) -> real) {
    forall q :: next(q).Some? ==> next(q).value in Neighbors(costs, q) && StepCost(nodes, costs, dist, q, next(q).value).Fin?
  }

  lemma NextStepSound(nodes: Table, costs: CostGrid, dist: (Point, Point) -> real)
    ensures SoundSteps(NextStep(nodes, costs, dist), nodes, costs, dist)
  {
    forall q | NextStep(nodes, costs, dist)(q).Some?
      ensures var n := NextStep(nodes, costs, dist)(q).value;
        n in Neighbors(costs, q) && StepCost(nodes, costs, dist, q, n).Fin?
    {
      assert NextStep(nodes, costs, dist)(q) == Next(nodes, costs, dist, q);
    }
  }

  /** ps is the walk of steps `next` takes from c. */
  ghost predicate GreedyWalk(next: Point -> Option<Point>, c: Point, ps: seq<Point>)
    decreases |ps|
  {
    ps == [] || (next(c) == Some(ps[0]) && GreedyWalk(next, ps[0], ps[1..]))
  }

  /** ps is a walk of 8-neighbour steps starting next to c. */
  ghost predicate Walk(costs: CostGrid, c: Point, ps: seq<Point>)
    decreases |ps|
  {
    ps == [] || (ps[0] in Neighbors(costs, c) && Walk(costs, ps[0], ps[1..]))
  }

  /** Every step of the walk goes through a cell of finite g + travel cost. */
  ghost predicate FiniteSteps(nodes: Table, costs: CostGrid, dist: (Point, Point) -> real, c: Point, ps: seq<Point>)
    decreases |ps|
  {
    ps == [] || (StepCost(nodes, costs, dist, c, ps[0]).Fin? && FiniteSteps(nodes, costs, dist, ps[0], ps[1..]))
  }

  function EndOf(c: Point, ps: seq<Point>): Point {
    if ps == [] then c else ps[|ps| - 1]
  }

  /** A cell other than the goal from which no neighbour has a finite step cost. */
  ghost predicate Stuck(nodes: Table, costs: CostGrid, dist: (Point, Point) -> real, goal: Point, c: Point) {
    c != goal && forall n :: n in Neighbors(costs, c) ==> StepCost(nodes, costs, dist, c, n) == Inf
  }

  /** Taking one more step from the end of a walk extends it. */
  lemma {:induction false} GreedyWalkExtend(next: Point -> Option<Point>, c: Point, ps: seq<Point>, n: Point)
    requires GreedyWalk(next, c, ps)
    requires next(EndOf(c, ps)) == Some(n)
    ensures GreedyWalk(next, c, ps + [n])
    ensures EndOf(c, ps + [n]) == n
    decreases |ps|
  {
    if ps != [] {
      assert (ps + [n])[1..] == ps[1..] + [n];
      assert EndOf(ps[0], ps[1..]) == EndOf(c, ps);
      GreedyWalkExtend(next, ps[0], ps[1..], n);
    }
  }

  /** A walk of sound steps moves between 8-neighbours through finite-cost cells. */
  lemma {:induction false} GreedyWalkIsWalk(next: Point -> Option<Point>, nodes: Table, costs: CostGrid,
                                            dist: (Point, Point) -> real, c: Point, ps: seq<Point>)
    requires SoundSteps(next, nodes, costs, dist)
    requires GreedyWalk(next, c, ps)
    ensures Walk(costs, c, ps) && FiniteSteps(nodes, costs, dist, c, ps)
    decreases |ps|
  {
    if ps != [] {
      GreedyWalkIsWalk(next, nodes, costs, dist, ps[0], ps[1..]);
    }
  }
}
