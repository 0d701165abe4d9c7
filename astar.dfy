/** The A* planner: a search over the 4-connected cells of a cost matrix that
    keeps an insertion-ordered open dictionary and a closed dictionary of
    nodes, expands the open node of least g + h + cost, and rebuilds the
    path by following parent links from the goal. */
module AStar {
  import opened ExtReal
  import opened GridModel

  /** The cost matrix A* searches: grid[row][col] is the cost of leaving a
      cell; an infinite cost makes a cell impossible to leave. */
  type Costs = Grid<Ext>

  /** A Node: its cell, the cost g of the best known route to it (inf until
      reached), the heuristic h, the cell cost and the cell it was reached from. */
  datatype SearchNode = SearchNode(point: Point, g: Ext, h: real, cost: Ext, parent: Option<Point>)

  /** What astar returns: a path, the string "Oh no" when the open dictionary
      runs dry, or the IndexError raised when the start cell cannot be read. */
  datatype Outcome = Found(path: seq<Point>) | NoPath | IndexError

  // ---------------------------------------------------------------------
  // Neighbours, indexing and the start node
  // ---------------------------------------------------------------------

  function Manhattan(p: Point, q: Point): nat {
    Abs(p.0 - q.0) + Abs(p.1 - q.1)
  }

  /** n is an in-bounds cell one orthogonal step away from p. */
  predicate Adjacent<T>(grid: Grid<T>, p: Point, n: Point) {
    InBounds(grid, n) && Manhattan(p, n) == 1
  }

  /** The four orthogonal cells, in the order get_neighbors lists them. */
  function Around4(p: Point): seq<Point> {
    [(p.0 - 1, p.1), (p.0 + 1, p.1), (p.0, p.1 - 1), (p.0, p.1 + 1)]
  }

  /** The four listed cells are exactly the cells one orthogonal step away. */
  lemma Around4Exact(p: Point, n: Point)
    ensures n in Around4(p) <==> Manhattan(p, n) == 1
  {
    if Manhattan(p, n) == 1 {
      if n.0 == p.0 - 1 {
        assert n == (p.0 - 1, p.1);
      } else if n.0 == p.0 + 1 {
        assert n == (p.0 + 1, p.1);
      } else if n.1 == p.1 - 1 {
        assert n == (p.0, p.1 - 1);
      } else {
        assert n == (p.0, p.1 + 1);
      }
    }
  }

  /** get_neighbors(point, grid): the in-bounds cells among the four. */
  function Neighbors4(grid: Costs, p: Point): (r: seq<Point>)
    ensures |r| <= 4
    ensures forall n {:trigger n in r} :: n in r <==> Adjacent(grid, p, n)
  {
    var around := Around4(p);
    assert forall n :: n in around <==> Manhattan(p, n) == 1 by {
      forall n ensures n in around <==> Manhattan(p, n) == 1 {
        Around4Exact(p, n);
      }
    }
    KeepInBounds(grid, around)
  }

  /** get_neighbors lists no cell twice. */
  lemma Neighbors4Distinct(grid: Costs, p: Point)
    ensures Distinct(Neighbors4(grid, p))
  {
    KeepInBoundsDistinct(grid, Around4(p));
  }

  /** Being neighbours is symmetric between in-bounds cells. */
  lemma Neighbors4Symmetric(grid: Costs, p: Point, q: Point)
    requires InBounds(grid, p) && q in Neighbors4(grid, p)
    ensures p in Neighbors4(grid, q)
  {
    assert Manhattan(q, p) == Manhattan(p, q);
  }

  /** The position a Python index i selects in a sequence of length n
      (i counts from the end when negative), or None where indexing raises
      IndexError. */
  function PyIndex(n: nat, i: int): (r: Option<nat>)
    ensures r.Some? <==> -(n as int) <= i < n
    ensures r.Some? ==> r.value < n && r.value % n == i % n
    ensures 0 <= i < n ==> r == Some(i)
  {
    if 0 <= i < n then Some(i) else if -(n as int) <= i < 0 then Some(i + n) else None
  }

  /** grid[p[0]][p[1]] as Python reads it, None for an IndexError. */
  function PyCell(grid: Costs, p: Point): (r: Option<Ext>)
    ensures Rectangular(grid) ==>
              (r.Some? <==> -(Rows(grid) as int) <= p.0 < Rows(grid) && -(Cols(grid) as int) <= p.1 < Cols(grid))
    ensures InBounds(grid, p) && Rectangular(grid) ==> r == Some(grid[p.0][p.1])
  {
    match PyIndex(|grid|, p.0)
    case None => None
    case Some(i) =>
      match PyIndex(|grid[i]|, p.1)
      case None => None
      case Some(j) => Some(grid[i][j])
  }

  /** The start node: g = 0, h = distance(start, goal), and the start cell's
      cost capped at 10, so finite even on an obstacle; None where reading
      the start cell raises. */
  function StartNode(grid: Costs, start: Point, goal: Point, dist: (Point, Point) -> real): (r: Option<SearchNode>)
    ensures r.Some? <==> PyCell(grid, start).Some?
    ensures r.Some? ==>
              && r.value.point == start && r.value.g == Fin(0.0) && r.value.parent == None
              && r.value.h == dist(start, goal)
              && r.value.cost.Fin? && r.value.cost.v <= 10.0 && Le(r.value.cost, PyCell(grid, start).value)
              && (r.value.cost == Fin(10.0) || r.value.cost == PyCell(grid, start).value)
  {
    match PyCell(grid, start)
    case None => None
    case Some(c) => Some(SearchNode(start, Fin(0.0), dist(start, goal), Min(c, Fin(10.0)), None))
  }

  // ---------------------------------------------------------------------
  // The open dictionary
  // ---------------------------------------------------------------------

  /** A Python dict of nodes: its keys in insertion order and the node of each key. */
  datatype Open = Open(order: seq<Point>, nodes: map<Point, SearchNode>)

  /** The keys are listed once each, the listed keys are the map's keys, and
      every node sits under its own point. */
  ghost predicate OpenOk(o: Open) {
    && Distinct(o.order)
    && (forall p {:trigger p in o.nodes} {:trigger p in o.order} :: p in o.nodes <==> p in o.order)
    && (forall p {:trigger o.nodes[p]} :: p in o.nodes ==> o.nodes[p].point == p)
  }

  /** The dict is empty exactly when it has no key. */
  lemma OpenEmpty(o: Open)
    requires OpenOk(o)
    ensures o.order == [] <==> o.nodes == map[]
  {
    if o.order != [] {
      assert o.order[0] in o.nodes;
    }
    if o.nodes != map[] {
      var p :| p in o.nodes;
      assert p in o.order;
    }
  }

  /** list(open.values()): the nodes in insertion order. */
  function Values(o: Open): (vs: seq<SearchNode>)
    requires OpenOk(o)
    ensures |vs| == |o.order|
    ensures forall k :: 0 <= k < |vs| ==> o.order[k] in o.nodes && vs[k] == o.nodes[o.order[k]]
  {
    assert forall k :: 0 <= k < |o.order| ==> o.order[k] in o.order;
    seq(|o.order|, k requires 0 <= k < |o.order| && o.order[k] in o.nodes => o.nodes[o.order[k]])
  }

  /** The sort key g + h + cost. */
  function Priority(n: SearchNode): (r: Ext)
    ensures r.Inf? <==> n.g.Inf? || n.cost.Inf?
    ensures r.Fin? ==> r.v == n.g.v + n.h + n.cost.v
  {
    Add(Add(n.g, Fin(n.h)), n.cost)
  }

  /** sorted(vs, key=Priority)[0]: Python's sort is stable, so the first node
      of least priority comes first. */
  function FirstMin(vs: seq<SearchNode>): (i: nat)
    requires vs != []
    ensures i < |vs|
    ensures forall k :: 0 <= k < |vs| ==> Le(Priority(vs[i]), Priority(vs[k]))
    ensures forall k :: 0 <= k < i ==> Lt(Priority(vs[i]), Priority(vs[k]))
  {
    if |vs| == 1 then 0
    else
      var last := |vs| - 1;
      var j := FirstMin(vs[..last]);
      assert forall k :: 0 <= k < last ==> vs[..last][k] == vs[k];
      if Lt(Priority(vs[last]), Priority(vs[j])) then
        assert forall k :: 0 <= k < last ==> Lt(Priority(vs[last]), Priority(vs[k])) by {
          forall k | 0 <= k < last ensures Lt(Priority(vs[last]), Priority(vs[k])) {
            LtTrichotomy(Priority(vs[j]), Priority(vs[k]));
            if Priority(vs[j]) != Priority(vs[k]) {
              LtTransitive(Priority(vs[last]), Priority(vs[j]), Priority(vs[k]));
            }
          }
        }
        last
      else
        j
  }

  /** The keys of s other than p, in their order. */
  function Without(s: seq<Point>, p: Point): (r: seq<Point>)
    ensures forall x {:trigger x in r} :: x in r <==> x in s && x != p
  {
    if s == [] then []
    else (if s[0] == p then [] else [s[0]]) + Without(s[1..], p)
  }

  /** Dropping a key keeps the key list free of repetitions. */
  lemma {:induction false} WithoutDistinct(s: seq<Point>, p: Point)
    requires Distinct(s)
    ensures Distinct(Without(s, p))
  {
    if s != [] {
      var rest := Without(s[1..], p);
      assert s[0] !in s[1..];
      WithoutDistinct(s[1..], p);
      var r := Without(s, p);
      if s[0] != p {
        assert r == [s[0]] + rest;
        forall i, j | 0 <= i < j < |r| ensures r[i] != r[j] {
          if i == 0 {
            assert r[j] == rest[j - 1] && rest[j - 1] in rest;
          } else {
            assert r[i] == rest[i - 1] && r[j] == rest[j - 1];
          }
        }
      } else {
        assert r == rest;
      }
    }
  }

  /** open.pop(p). */
  function Remove(o: Open, p: Point): (r: Open)
    ensures r.nodes == o.nodes - {p}
    ensures OpenOk(o) ==> OpenOk(r)
  {
    assert OpenOk(o) ==> Distinct(Without(o.order, p)) by {
      if OpenOk(o) {
        WithoutDistinct(o.order, p);
      }
    }
    Open(Without(o.order, p), o.nodes - {p})
  }

  /** open[k] = n: an existing key keeps its place, a new key goes last. */
  function Put(o: Open, k: Point, n: SearchNode): (r: Open)
    ensures r.nodes == o.nodes[k := n]
    ensures k in o.nodes ==> r.order == o.order
    ensures k !in o.nodes ==> r.order == o.order + [k]
    ensures OpenOk(o) && n.point == k ==> OpenOk(r)
  {
    if k in o.nodes then Open(o.order, o.nodes[k := n])
    else
      var order := o.order + [k];
      assert OpenOk(o) ==> Distinct(order) by {
        if OpenOk(o) {
          assert k !in o.order;
          forall i, j | 0 <= i < j < |order| ensures order[i] != order[j] {
            if j == |o.order| {
              assert order[i] == o.order[i] && o.order[i] in o.order;
            }
          }
        }
      }
      Open(order, o.nodes[k := n])
  }

  // ---------------------------------------------------------------------
  // Relaxing the neighbours of the expanded node
  // ---------------------------------------------------------------------

  /** The g value of p in the open dictionary, inf for a missing key. */
  function GOf(o: Open, p: Point): Ext {
    if p in o.nodes then o.nodes[p].g else Inf
  }

  /** current.g + distance(current.point, q) + current.cost. */
  function Through(current: SearchNode, q: Point, dist: (Point, Point) -> real): Ext {
    Add(Add(current.g, Fin(dist(current.point, q))), current.cost)
  }

  /** The node the loop body looks at for the neighbour q: the one in the open
      dictionary, or a new Node(q, distance(q, goal), grid[q]). */
  function Candidate(o: Open, grid: Costs, goal: Point, dist: (Point, Point) -> real, q: Point): SearchNode {
    if q in o.nodes then o.nodes[q] else SearchNode(q, Inf, dist(q, goal), Cell(grid, q, Inf), None)
  }

  /** One pass of the inner loop for the neighbour q of current. */
  function RelaxOne(o: Open, closed: map<Point, SearchNode>, current: SearchNode, q: Point,
                    grid: Costs, goal: Point, dist: (Point, Point) -> real): (r: Open)
    ensures forall p {:trigger p in r.nodes} :: p != q ==> (p in r.nodes <==> p in o.nodes)
    ensures forall p {:trigger r.nodes[p]} :: p != q && p in r.nodes ==> r.nodes[p] == o.nodes[p]
    ensures q in closed ==> r == o
    ensures q !in closed ==> GOf(r, q) == Min(GOf(o, q), Through(current, q, dist))
    ensures Lt(GOf(r, q), GOf(o, q)) ==>
              && q in r.nodes && r.nodes[q].parent == Some(current.point)
              && r.nodes[q].h == Candidate(o, grid, goal, dist, q).h
              && r.nodes[q].cost == Candidate(o, grid, goal, dist, q).cost
    ensures !Lt(GOf(r, q), GOf(o, q)) ==> r == o
    ensures OpenOk(o) ==> OpenOk(r)
  {
    if q in closed then o
    else
      var neighbor := Candidate(o, grid, goal, dist, q);
      var g := Through(current, q, dist);
      if Lt(g, neighbor.g) then Put(o, q, neighbor.(g := g, parent := Some(current.point)))
      else o
  }

  /** The inner loop over the neighbours ns, as a fold over its prefixes. */
  function RelaxAll(o: Open, closed: map<Point, SearchNode>, current: SearchNode, ns: seq<Point>,
                    grid: Costs, goal: Point, dist: (Point, Point) -> real): (r: Open)
    ensures OpenOk(o) ==> OpenOk(r)
    ensures forall p {:trigger p in r.nodes} :: p in o.nodes ==> p in r.nodes
    decreases |ns|
  {
    if ns == [] then o
    else RelaxOne(RelaxAll(o, closed, current, ns[..|ns| - 1], grid, goal, dist),
                  closed, current, ns[|ns| - 1], grid, goal, dist)
  }

  /** One more step of the fold: relaxing ns[..i + 1] is relaxing ns[..i], then ns[i]. */
  lemma RelaxAllSnoc(o: Open, closed: map<Point, SearchNode>, current: SearchNode, ns: seq<Point>,
                     grid: Costs, goal: Point, dist: (Point, Point) -> real, i: int)
    requires 0 <= i < |ns|
    ensures RelaxAll(o, closed, current, ns[..i + 1], grid, goal, dist) ==
            RelaxOne(RelaxAll(o, closed, current, ns[..i], grid, goal, dist), closed, current, ns[i], grid, goal, dist)
  {
    Slices(ns, i);
  }

  /** After relaxing ns from a node of finite g: the open keys are the old
      ones plus, when current's cell cost is finite, the listed cells not
      closed; each node is either the old one or was reached through current
      at cost current.g + distance + current.cost, keeping its cell cost. */
  lemma {:induction false} RelaxAllFacts(o: Open, closed: map<Point, SearchNode>, current: SearchNode,
                                         ns: seq<Point>, grid: Costs, goal: Point, dist: (Point, Point) -> real)
    requires OpenOk(o) && current.g.Fin?
    requires Apart(o, closed)
    ensures var r := RelaxAll(o, closed, current, ns, grid, goal, dist);
            && OpenOk(r)
            && (forall p {:trigger p in r.nodes} :: p in r.nodes <==>
                  p in o.nodes || (p in ns && p !in closed && current.cost.Fin?))
            && (forall p {:trigger r.nodes[p]} :: p in r.nodes ==>
                  (p in o.nodes && r.nodes[p] == o.nodes[p]) ||
                  (&& p in ns && r.nodes[p].parent == Some(current.point) && r.nodes[p].g == Through(current, p, dist)
                   && current.cost.Fin?
                   && r.nodes[p].cost == (if p in o.nodes then o.nodes[p].cost else Cell(grid, p, Inf))))
    decreases |ns|
  {
    if ns != [] {
      var init := ns[..|ns| - 1];
      var q := ns[|ns| - 1];
      var r0 := RelaxAll(o, closed, current, init, grid, goal, dist);
      RelaxAllFacts(o, closed, current, init, grid, goal, dist);
      var r := RelaxOne(r0, closed, current, q, grid, goal, dist);
      assert ns == init + [q];
      assert forall p {:trigger p in ns} :: p in ns <==> p in init || p == q;
      RelaxOneFacts(r0, closed, current, q, grid, goal, dist);
      forall p | p in r.nodes
        ensures (p in o.nodes && r.nodes[p] == o.nodes[p]) ||
                (&& p in ns && r.nodes[p].parent == Some(current.point) && r.nodes[p].g == Through(current, p, dist)
                 && current.cost.Fin?
                 && r.nodes[p].cost == (if p in o.nodes then o.nodes[p].cost else Cell(grid, p, Inf)))
      {
        if p != q || (q in r0.nodes && r.nodes[q] == r0.nodes[q]) {
          assert p in r0.nodes && r.nodes[p] == r0.nodes[p];
        } else if q in r0.nodes {
          assert q in o.nodes ==> r0.nodes[q].cost == o.nodes[q].cost;
        }
      }
    }
  }

  /** One pass of the inner loop from a node of finite g: q becomes open
      exactly when it was open or is not closed and current's cell cost is
      finite; a written node was reached through current, keeping its cost. */
  lemma RelaxOneFacts(o: Open, closed: map<Point, SearchNode>, current: SearchNode, q: Point,
                      grid: Costs, goal: Point, dist: (Point, Point) -> real)
    requires current.g.Fin? && (q in o.nodes ==> q !in closed)
    ensures var r := RelaxOne(o, closed, current, q, grid, goal, dist);
            && (q in r.nodes <==> q in o.nodes || (q !in closed && current.cost.Fin?))
            && (q in r.nodes ==>
                  (q in o.nodes && r.nodes[q] == o.nodes[q]) ||
                  (&& r.nodes[q].parent == Some(current.point) && r.nodes[q].g == Through(current, q, dist)
                   && current.cost.Fin?
                   && r.nodes[q].cost == (if q in o.nodes then o.nodes[q].cost else Cell(grid, q, Inf))))
  {
    var r := RelaxOne(o, closed, current, q, grid, goal, dist);
    if q !in closed {
      if current.cost.Fin? {
        assert Through(current, q, dist).Fin?;
        assert q in r.nodes by {
          if q !in o.nodes {
            assert Lt(GOf(r, q), GOf(o, q));
          }
        }
      } else {
        assert Through(current, q, dist) == Inf;
      }
      if Lt(GOf(r, q), GOf(o, q)) {
        assert r.nodes[q].g == Through(current, q, dist);
      } else {
        assert r == o;
      }
    }
  }

  /** Relaxing never raises the g of any cell: every open cell's g after the
      inner loop is at most its g before it. */
  lemma {:induction false} RelaxAllLowers(o: Open, closed: map<Point, SearchNode>, current: SearchNode,
                                          ns: seq<Point>, grid: Costs, goal: Point, dist: (Point, Point) -> real, p: Point)
    ensures Le(GOf(RelaxAll(o, closed, current, ns, grid, goal, dist), p), GOf(o, p))
    decreases |ns|
  {
    if ns != [] {
      var r0 := RelaxAll(o, closed, current, ns[..|ns| - 1], grid, goal, dist);
      RelaxAllLowers(o, closed, current, ns[..|ns| - 1], grid, goal, dist, p);
      var r := RelaxOne(r0, closed, current, ns[|ns| - 1], grid, goal, dist);
      if p == ns[|ns| - 1] && !(p in closed) {
        LeTransitive(GOf(r, p), GOf(r0, p), GOf(o, p));
      } else if p != ns[|ns| - 1] {
        assert GOf(r, p) == GOf(r0, p);
      }
    }
  }

  /** The for loop over get_neighbors(current.point, grid). */
  method RelaxNeighbors(grid: Costs, goal: Point, dist: (Point, Point) -> real,
                        open: Open, closed: map<Point, SearchNode>, current: SearchNode)
    returns (o: Open)
    ensures o == RelaxAll(open, closed, current, Neighbors4(grid, current.point), grid, goal, dist)
  {
    var ns := Neighbors4(grid, current.point);
    o := open;
    for i := 0 to |ns|
      invariant o == RelaxAll(open, closed, current, ns[..i], grid, goal, dist)
    {
      RelaxAllSnoc(open, closed, current, ns, grid, goal, dist, i);
      var q := ns[i];
      if q in closed {
        continue;
      }
      var neighbor: SearchNode;
      if q !in o.nodes {
        neighbor := SearchNode(q, Inf, dist(q, goal), Cell(grid, q, Inf), None);
      } else {
        neighbor := o.nodes[q];
      }
      var g := Add(Add(current.g, Fin(dist(current.point, q))), current.cost);
      if Lt(g, neighbor.g) {
        neighbor := neighbor.(g := g, parent := Some(current.point));
        o := Put(o, q, neighbor);
      }
    }
    WholeSlices(ns);
  }

  // ---------------------------------------------------------------------
  // The search invariant
  // ---------------------------------------------------------------------

  /** A cell the search can leave: the start (whose cost is capped) or a cell
      of finite cost. */
  predicate Passable(grid: Costs, start: Point, p: Point) {
    p == start || Cell(grid, p, Inf).Fin?
  }

  /** A node's cell cost: finite at the start, the grid's cost elsewhere. */
  predicate CostOk(grid: Costs, start: Point, n: SearchNode) {
    if n.point == start then n.cost.Fin? else n.cost == Cell(grid, n.point, Inf)
  }

  /** A node's parent link: none only at the start, otherwise a closed,
      passable cell one orthogonal step away. */
  ghost predicate ParentOk(grid: Costs, start: Point, closed: map<Point, SearchNode>, n: SearchNode) {
    match n.parent
    case None => n.point == start
    case Some(p) => p in closed && Adjacent(grid, p, n.point) && Passable(grid, start, p)
  }

  /** A ghost order of closing: every closed cell was closed after its parent. */
  ghost predicate Ranked(closed: map<Point, SearchNode>, rank: map<Point, nat>) {
    && rank.Keys == closed.Keys
    && (forall p {:trigger rank[p]} :: p in rank ==> rank[p] < |rank.Keys|)
    && (forall p {:trigger closed[p]} :: p in closed && closed[p].parent.Some? ==>
          closed[p].parent.value in rank && rank[closed[p].parent.value] < rank[p])
  }

  /** The closed nodes: each under its own point, with its cell cost and a
      valid parent link. */
  ghost predicate ClosedOk(grid: Costs, start: Point, closed: map<Point, SearchNode>) {
    forall p {:trigger closed[p]} :: p in closed ==>
      closed[p].point == p && CostOk(grid, start, closed[p]) && ParentOk(grid, start, closed, closed[p])
  }

  /** The open nodes: finite g, their cell cost and a valid parent link. */
  ghost predicate OpenNodesOk(grid: Costs, start: Point, closed: map<Point, SearchNode>, open: Open) {
    forall p {:trigger open.nodes[p]} :: p in open.nodes ==>
      open.nodes[p].g.Fin? && CostOk(grid, start, open.nodes[p]) && ParentOk(grid, start, closed, open.nodes[p])
  }

  /** Every cell one step from a passable closed cell is closed or open. */
  ghost predicate Frontier(grid: Costs, start: Point, closed: map<Point, SearchNode>, open: Open) {
    forall p, n {:trigger Adjacent(grid, p, n)} :: p in closed && Passable(grid, start, p) && Adjacent(grid, p, n) ==>
      n in closed || n in open.nodes
  }

  /** No open cell is closed. */
  ghost predicate Apart(open: Open, closed: map<Point, SearchNode>) {
    forall p {:trigger p in open.nodes} :: p in open.nodes ==> p !in closed
  }

  /** Every cell of keys is the start or lies in the grid. */
  ghost predicate Inside(grid: Costs, start: Point, keys: set<Point>) {
    forall p {:trigger p in keys} :: p in keys ==> p == start || InBounds(grid, p)
  }

  /** What holds of the open and closed dictionaries at the head of `while open`. */
  ghost predicate SearchInv(grid: Costs, start: Point, goal: Point, open: Open,
                            closed: map<Point, SearchNode>, rank: map<Point, nat>)
  {
    && OpenOk(open)
    && ClosedOk(grid, start, closed)
    && Apart(open, closed)
    && OpenNodesOk(grid, start, closed, open)
    && Ranked(closed, rank)
    && Inside(grid, start, closed.Keys)
    && Inside(grid, start, open.nodes.Keys)
    && Frontier(grid, start, closed, open)
    && (start in closed || start in open.nodes)
    && goal !in closed
  }

  /** The dictionaries before the first iteration satisfy the invariant. */
  lemma InvInit(grid: Costs, start: Point, goal: Point, s: SearchNode)
    requires s.point == start && s.parent == None && s.g.Fin? && s.cost.Fin?
    ensures SearchInv(grid, start, goal, Open([start], map[start := s]), map[], map[])
  {
  }

  /** A parent link into closed stays valid as closed grows. */
  lemma ParentOkGrow(grid: Costs, start: Point, closed: map<Point, SearchNode>, cp: Point, c: SearchNode, n: SearchNode)
    requires ParentOk(grid, start, closed, n)
    ensures ParentOk(grid, start, closed[cp := c], n)
  {
  }

  /** Closing a node whose parent link is valid keeps every closed node's
      link valid and gives the new node the next rank. */
  lemma CloseNode(grid: Costs, start: Point, closed: map<Point, SearchNode>, rank: map<Point, nat>, current: SearchNode)
    requires ClosedOk(grid, start, closed) && Ranked(closed, rank)
    requires current.point !in closed && CostOk(grid, start, current) && ParentOk(grid, start, closed, current)
    ensures var closed2 := closed[current.point := current];
            && ClosedOk(grid, start, closed2)
            && Ranked(closed2, rank[current.point := |closed.Keys|])
            && |closed2.Keys| == |closed.Keys| + 1
  {
    var cp := current.point;
    var closed2 := closed[cp := current];
    var rank2 := rank[cp := |closed.Keys|];
    assert closed2.Keys == closed.Keys + {cp};
    assert rank2.Keys == rank.Keys + {cp};
    forall p | p in closed2
      ensures closed2[p].point == p && CostOk(grid, start, closed2[p]) && ParentOk(grid, start, closed2, closed2[p])
    {
      if p == cp {
        ParentOkGrow(grid, start, closed, cp, current, current);
      } else {
        ParentOkGrow(grid, start, closed, cp, current, closed[p]);
      }
    }
    forall p | p in closed2 && closed2[p].parent.Some?
      ensures closed2[p].parent.value in rank2 && rank2[closed2[p].parent.value] < rank2[p]
    {
      if p != cp {
        assert closed2[p] == closed[p];
        assert closed[p].parent.value in closed;
      }
    }
  }

  /** The open dictionary after popping cp, closing it and relaxing its
      neighbours ns. */
  function Expanded(grid: Costs, goal: Point, dist: (Point, Point) -> real, open: Open,
                    closed: map<Point, SearchNode>, cp: Point, ns: seq<Point>): Open
    requires cp in open.nodes
  {
    RelaxAll(Remove(open, cp), closed[cp := open.nodes[cp]], open.nodes[cp], ns, grid, goal, dist)
  }

  /** The hypotheses the three halves of one iteration share. */
  ghost predicate StepReady(grid: Costs, start: Point, open: Open, closed: map<Point, SearchNode>,
                            cp: Point, ns: seq<Point>)
  {
    && OpenOk(open) && OpenNodesOk(grid, start, closed, open)
    && Apart(open, closed)
    && cp in open.nodes
    && (forall n {:trigger n in ns} :: n in ns <==> Adjacent(grid, cp, n))
  }

  /** After an iteration the open keys are a valid dict, apart from closed,
      and in the grid or at the start; the start is still closed or open. */
  lemma ExpandedKeys(grid: Costs, start: Point, goal: Point, dist: (Point, Point) -> real, open: Open,
                     closed: map<Point, SearchNode>, cp: Point, ns: seq<Point>)
    requires StepReady(grid, start, open, closed, cp, ns)
    requires Inside(grid, start, open.nodes.Keys)
    requires start in closed || start in open.nodes
    ensures var o2 := Expanded(grid, goal, dist, open, closed, cp, ns);
            var closed2 := closed[cp := open.nodes[cp]];
            && OpenOk(o2)
            && Apart(o2, closed2)
            && Inside(grid, start, o2.nodes.Keys)
            && (start in closed2 || start in o2.nodes)
  {
    var current := open.nodes[cp];
    var closed2 := closed[cp := current];
    var o1 := Remove(open, cp);
    assert Apart(o1, closed2);
    RelaxAllFacts(o1, closed2, current, ns, grid, goal, dist);
  }

  /** After an iteration every open node has a finite g, its cell cost and a
      valid parent link. */
  lemma ExpandedNodes(grid: Costs, start: Point, goal: Point, dist: (Point, Point) -> real, open: Open,
                      closed: map<Point, SearchNode>, cp: Point, ns: seq<Point>)
    requires StepReady(grid, start, open, closed, cp, ns)
    requires start in closed || start in open.nodes
    ensures OpenNodesOk(grid, start, closed[cp := open.nodes[cp]], Expanded(grid, goal, dist, open, closed, cp, ns))
  {
    var current := open.nodes[cp];
    var closed2 := closed[cp := current];
    var o1 := Remove(open, cp);
    var o2 := Expanded(grid, goal, dist, open, closed, cp, ns);
    assert Apart(o1, closed2);
    RelaxAllFacts(o1, closed2, current, ns, grid, goal, dist);
    forall p | p in o2.nodes
      ensures o2.nodes[p].g.Fin? && CostOk(grid, start, o2.nodes[p]) && ParentOk(grid, start, closed2, o2.nodes[p])
    {
      if p in o1.nodes && o2.nodes[p] == o1.nodes[p] {
        assert o1.nodes[p] == open.nodes[p];
        ParentOkGrow(grid, start, closed, cp, current, open.nodes[p]);
      } else {
        var prev := if p in o1.nodes then Some(o1.nodes[p]) else None;
        RelaxedNodeOk(grid, start, dist, closed2, current, p, prev, o2.nodes[p]);
      }
    }
  }

  /** A node that relaxation wrote under p, one step from the just-closed
      current, has a finite g, its cell cost and a valid parent link. */
  lemma RelaxedNodeOk(grid: Costs, start: Point, dist: (Point, Point) -> real, closed2: map<Point, SearchNode>,
                      current: SearchNode, p: Point, prev: Option<SearchNode>, n: SearchNode)
    requires current.point in closed2 && current.g.Fin? && current.cost.Fin? && CostOk(grid, start, current)
    requires Adjacent(grid, current.point, p) && n.point == p
    requires n.parent == Some(current.point) && n.g == Through(current, p, dist)
    requires prev.Some? ==> prev.value.point == p && CostOk(grid, start, prev.value)
    requires prev.None? ==> p != start
    requires n.cost == (if prev.Some? then prev.value.cost else Cell(grid, p, Inf))
    ensures n.g.Fin? && CostOk(grid, start, n) && ParentOk(grid, start, closed2, n)
  {
  }

  /** After an iteration every cell one step from a passable closed cell is
      closed or open. */
  lemma ExpandedFrontier(grid: Costs, start: Point, goal: Point, dist: (Point, Point) -> real, open: Open,
                         closed: map<Point, SearchNode>, cp: Point, ns: seq<Point>)
    requires StepReady(grid, start, open, closed, cp, ns)
    requires Frontier(grid, start, closed, open)
    ensures Frontier(grid, start, closed[cp := open.nodes[cp]], Expanded(grid, goal, dist, open, closed, cp, ns))
  {
    var current := open.nodes[cp];
    var closed2 := closed[cp := current];
    var o1 := Remove(open, cp);
    var o2 := Expanded(grid, goal, dist, open, closed, cp, ns);
    assert Apart(o1, closed2);
    RelaxAllFacts(o1, closed2, current, ns, grid, goal, dist);
    assert current.point == cp && CostOk(grid, start, current);
    forall p, n | p in closed2 && Passable(grid, start, p) && Adjacent(grid, p, n)
      ensures n in closed2 || n in o2.nodes
    {
      if p == cp {
        assert current.cost.Fin?;
        assert n in ns;
      } else {
        assert n in closed || n in open.nodes;
      }
    }
  }

  /** One iteration that expands cp (not the goal): pop it, close it, relax its
      neighbours ns. The invariant holds of the new dictionaries, and cp joins
      closed with the next rank. */
  lemma InvStep(grid: Costs, start: Point, goal: Point, dist: (Point, Point) -> real,
                open: Open, closed: map<Point, SearchNode>, rank: map<Point, nat>, cp: Point, ns: seq<Point>)
    requires SearchInv(grid, start, goal, open, closed, rank)
    requires cp in open.nodes && cp != goal
    requires forall n {:trigger n in ns} :: n in ns <==> Adjacent(grid, cp, n)
    ensures SearchInv(grid, start, goal, Expanded(grid, goal, dist, open, closed, cp, ns),
                      closed[cp := open.nodes[cp]], rank[cp := |closed.Keys|])
    ensures |closed[cp := open.nodes[cp]].Keys| == |closed.Keys| + 1
  {
    CloseNode(grid, start, closed, rank, open.nodes[cp]);
    ExpandedKeys(grid, start, goal, dist, open, closed, cp, ns);
    ExpandedNodes(grid, start, goal, dist, open, closed, cp, ns);
    ExpandedFrontier(grid, start, goal, dist, open, closed, cp, ns);
  }

  // ---------------------------------------------------------------------
  // Counting cells
  // ---------------------------------------------------------------------

  lemma {:induction false} ElemsSize<T>(s: seq<T>)
    ensures |Elems(s)| <= |s|
  {
    if s != [] {
      ElemsSize(s[1..]);
      assert Elems(s) == {s[0]} + Elems(s[1..]);
    }
  }

  lemma {:induction false} RowCellsSize(i: int, j: nat, cols: nat)
    ensures |RowCells(i, j, cols)| == if j >= cols then 0 else cols - j
    decreases cols - j
  {
    if j < cols {
      RowCellsSize(i, j + 1, cols);
    }
  }

  lemma {:induction false} RowMajorSize(i: nat, rows: nat, cols: nat)
    ensures |RowMajor(i, rows, cols)| == if i >= rows then 0 else (rows - i) * cols
    decreases rows - i
  {
    if i < rows {
      RowCellsSize(i, 0, cols);
      RowMajorSize(i + 1, rows, cols);
      assert (rows - i) * cols == cols + (rows - (i + 1)) * cols;
    }
  }

  lemma {:induction false} SubsetSize<T>(a: set<T>, b: set<T>)
    requires a <= b
    ensures |a| <= |b|
    decreases |a|
  {
    if a != {} {
      var x :| x in a;
      SubsetSize(a - {x}, b - {x});
    }
  }

  /** The cells the search can close: the grid's cells and the start. */
  ghost function Region(grid: Costs, start: Point): set<Point> {
    Elems(RowMajor(0, Rows(grid), Cols(grid))) + {start}
  }

  /** A set of cells in the grid or at the start, avoiding the goal, has at
      most rows * cols + 1 members, and one fewer when the goal is itself such
      a cell. */
  lemma ClosedCount(grid: Costs, start: Point, goal: Point, cells: set<Point>)
    requires forall p {:trigger p in cells} :: p in cells ==> p == start || InBounds(grid, p)
    requires goal !in cells
    ensures |cells| <= Rows(grid) * Cols(grid) + 1
    ensures goal == start || InBounds(grid, goal) ==> |cells| <= Rows(grid) * Cols(grid)
  {
    var all := RowMajor(0, Rows(grid), Cols(grid));
    var region := Region(grid, start);
    RowMajorSize(0, Rows(grid), Cols(grid));
    ElemsSize(all);
    assert |region| <= Rows(grid) * Cols(grid) + 1;
    forall p | InBounds(grid, p) ensures p in region {
      assert p in all;
    }
    SubsetSize(cells, region - {goal});
    if goal == start || InBounds(grid, goal) {
      assert goal in region;
      assert |region - {goal}| == |region| - 1;
    }
  }

  // ---------------------------------------------------------------------
  // Routes
  // ---------------------------------------------------------------------

  /** A route from start to goal: orthogonal steps onto in-bounds cells,
      leaving only cells the search can leave. */
  ghost predicate Route(grid: Costs, start: Point, goal: Point, path: seq<Point>) {
    && path != [] && path[0] == start && path[|path| - 1] == goal
    && (forall k :: 0 <= k < |path| - 1 ==> Adjacent(grid, path[k], path[k + 1]))
    && (forall k :: 0 <= k < |path| - 1 ==> Passable(grid, start, path[k]))
  }

  /** Some route leads from start to goal. */
  ghost predicate Reachable(grid: Costs, start: Point, goal: Point) {
    exists path :: Route(grid, start, goal, path)
  }

  /** A set holding the start and every cell one step from its passable
      members holds the end of every route. */
  lemma {:induction false} RouteInside(grid: Costs, start: Point, cells: set<Point>, goal: Point, path: seq<Point>)
    requires start in cells
    requires forall p, n {:trigger Adjacent(grid, p, n)} :: p in cells && Passable(grid, start, p) && Adjacent(grid, p, n) ==> n in cells
    requires Route(grid, start, goal, path)
    ensures goal in cells
    decreases |path|
  {
    if |path| > 1 {
      var init := path[..|path| - 1];
      var prev := init[|init| - 1];
      assert Route(grid, start, prev, init);
      RouteInside(grid, start, cells, prev, init);
      assert Adjacent(grid, prev, goal) && Passable(grid, start, prev);
    }
  }

  // ---------------------------------------------------------------------
  // Path reconstruction and the search
  // ---------------------------------------------------------------------

  /** path.reverse() */
  function Reverse<T>(s: seq<T>): (r: seq<T>)
    ensures |r| == |s|
    ensures forall k :: 0 <= k < |s| ==> r[k] == s[|s| - 1 - k]
  {
    if s == [] then [] else Reverse(s[1..]) + [s[0]]
  }

  /** Parent links walked back from goal to start, reversed, form a route. */
  lemma ReversedRoute(grid: Costs, start: Point, goal: Point, rev: seq<Point>)
    requires rev != [] && rev[0] == goal && rev[|rev| - 1] == start
    requires forall k :: 0 <= k < |rev| - 1 ==> Adjacent(grid, rev[k + 1], rev[k])
    requires forall k :: 0 < k < |rev| ==> Passable(grid, start, rev[k])
    ensures Route(grid, start, goal, Reverse(rev))
  {
    var path := Reverse(rev);
    forall k | 0 <= k < |path| - 1
      ensures Adjacent(grid, path[k], path[k + 1]) && Passable(grid, start, path[k])
    {
      assert path[k] == rev[|rev| - 1 - k] && path[k + 1] == rev[|rev| - 2 - k];
    }
  }

  /** The path-building tail of astar: follow parent links from the goal node
      through closed, then reverse. */
  method Reconstruct(grid: Costs, start: Point, closed: map<Point, SearchNode>, ghost rank: map<Point, nat>,
                     last: SearchNode)
    returns (path: seq<Point>)
    requires ClosedOk(grid, start, closed) && Ranked(closed, rank)
    requires ParentOk(grid, start, closed, last) && last.point !in closed
    ensures Route(grid, start, last.point, path)
  {
    var current := last;
    var rev := [last.point];
    while current.parent.Some?
      invariant rev != [] && rev[0] == last.point && rev[|rev| - 1] == current.point
      invariant current == last || (current.point in closed && closed[current.point] == current)
      invariant ParentOk(grid, start, closed, current)
      invariant forall k :: 0 <= k < |rev| - 1 ==> Adjacent(grid, rev[k + 1], rev[k])
      invariant forall k :: 0 < k < |rev| ==> Passable(grid, start, rev[k])
      decreases if current.point in closed then rank[current.point] else |rank.Keys|
    {
      var p := current.parent.value;
      rev := rev + [p];
      current := closed[p];
    }
    ReversedRoute(grid, start, last.point, rev);
    path := Reverse(rev);
  }

  /** The node sorted(...)[0] picks is the open node stored under its own point. */
  lemma PickOpen(o: Open)
    requires OpenOk(o) && o.order != []
    ensures var vs := Values(o);
            var c := vs[FirstMin(vs)];
            c.point in o.nodes && o.nodes[c.point] == c
  {
    var vs := Values(o);
    var i := FirstMin(vs);
    assert o.order[i] in o.nodes;
  }

  /** When the goal is popped: the route back to the start can be rebuilt,
      and the closed cells leave room for this last iteration. */
  lemma FoundExit(grid: Costs, start: Point, goal: Point, open: Open,
                  closed: map<Point, SearchNode>, rank: map<Point, nat>, current: SearchNode)
    requires SearchInv(grid, start, goal, open, closed, rank)
    requires current.point in open.nodes && open.nodes[current.point] == current && current.point == goal
    ensures ClosedOk(grid, start, closed) && Ranked(closed, rank)
    ensures ParentOk(grid, start, closed, current) && current.point !in closed
    ensures |closed.Keys| + 1 <= Rows(grid) * Cols(grid) + 1
  {
    ClosedCount(grid, start, goal, closed.Keys);
  }

  /** When the open dictionary runs dry, the closed cells hold every route's
      end, and the goal is not closed: no route reaches it. */
  lemma NoPathExit(grid: Costs, start: Point, goal: Point, open: Open,
                   closed: map<Point, SearchNode>, rank: map<Point, nat>)
    requires SearchInv(grid, start, goal, open, closed, rank)
    requires open.nodes == map[]
    ensures !Reachable(grid, start, goal)
  {
    assert start in closed;
    if path :| Route(grid, start, goal, path) {
      RouteInside(grid, start, closed.Keys, goal, path);
    }
  }

  /** astar(grid, start, goal). The ghost steps counts the iterations of
      `while open`. */
  method Search(grid: Costs, start: Point, goal: Point, dist: (Point, Point) -> real)
    returns (r: Outcome, ghost steps: nat)
    requires Rectangular(grid)
    ensures r.IndexError? <==> PyCell(grid, start).None?
    ensures r.Found? ==> Route(grid, start, goal, r.path)
    ensures r.NoPath? <==> PyCell(grid, start).Some? && !Reachable(grid, start, goal)
    ensures steps <= Rows(grid) * Cols(grid) + 1
  {
    var startNode := StartNode(grid, start, goal, dist);
    if startNode.None? {
      return IndexError, 0;
    }
    var open := Open([start], map[start := startNode.value]);
    var closed: map<Point, SearchNode> := map[];
    ghost var rank: map<Point, nat> := map[];
    steps := 0;
    InvInit(grid, start, goal, startNode.value);
    while open.order != []
      invariant SearchInv(grid, start, goal, open, closed, rank)
      invariant steps == |closed.Keys| <= Rows(grid) * Cols(grid) + 1
      decreases Rows(grid) * Cols(grid) + 1 - |closed.Keys|
    {
      var values := Values(open);
      var current := values[FirstMin(values)];
      PickOpen(open);
      ghost var before := open;
      open := Remove(open, current.point);
      steps := steps + 1;
      if current.point == goal {
        FoundExit(grid, start, goal, before, closed, rank, current);
        var path := Reconstruct(grid, start, closed, rank, current);
        return Found(path), steps;
      }
      InvStep(grid, start, goal, dist, before, closed, rank, current.point, Neighbors4(grid, current.point));
      ghost var size := |closed.Keys|;
      ghost var closed0 := closed;
      closed := closed[current.point := current];
      rank := rank[current.point := size];
      open := RelaxNeighbors(grid, goal, dist, open, closed, current);
      assert open == Expanded(grid, goal, dist, before, closed0, current.point, Neighbors4(grid, current.point));
      ClosedCount(grid, start, goal, closed.Keys);
    }
    OpenEmpty(open);
    NoPathExit(grid, start, goal, open, closed, rank);
    return NoPath, steps;
  }
}
