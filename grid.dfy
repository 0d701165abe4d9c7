/** Grid coordinates, cost grids and the distance both planners share. */
module GridModel {

  datatype Option<T> = None | Some(value: T)

  /** A (row, column) cell coordinate. */
  type Point = (int, int)

  /** A cost grid, row-major: costs[row][col]. */
  type Grid<T> = seq<seq<T>>

  /** The grid is a proper matrix: every row as long as the first. */
  ghost predicate Rectangular<T>(g: Grid<T>) {
    forall i :: 0 <= i < |g| ==> |g[i]| == |g[0]|
  }

  function Rows<T>(g: Grid<T>): nat {
    |g|
  }

  /** Number of columns, read from the first row as len(costs[0]) does. */
  function Cols<T>(g: Grid<T>): nat {
    if |g| == 0 then 0 else |g[0]|
  }

  /** 0 <= p[0] < len(g) and 0 <= p[1] < len(g[0]), evaluated left to right. */
  predicate InBounds<T>(g: Grid<T>, p: Point) {
    0 <= p.0 < |g| && 0 <= p.1 < |g[0]|
  }

  /** g[p[0]][p[1]]; the planners only read in-bounds cells, and any other
      cell reads as the given default here. */
  function Cell<T>(g: Grid<T>, p: Point, default: T): T {
    if 0 <= p.0 < |g| && 0 <= p.1 < |g[p.0]| then g[p.0][p.1] else default
  }

  function Abs(x: int): nat {
    if x < 0 then -x else x
  }

  /** No point occurs twice. */
  ghost predicate Distinct(s: seq<Point>) {
    forall i, j :: 0 <= i < j < |s| ==> s[i] != s[j]
  }

  /** [p for p in ps if in bounds], keeping the order. */
  function KeepInBounds<T>(g: Grid<T>, ps: seq<Point>): (r: seq<Point>)
    ensures |r| <= |ps|
    ensures forall n {:trigger n in r} :: n in r <==> n in ps && InBounds(g, n)
  {
    if ps == [] then []
    else (if InBounds(g, ps[0]) then [ps[0]] else []) + KeepInBounds(g, ps[1..])
  }

  /** Filtering keeps a list free of repetitions. */
  lemma {:induction false} KeepInBoundsDistinct<T>(g: Grid<T>, ps: seq<Point>)
    requires Distinct(ps)
    ensures Distinct(KeepInBounds(g, ps))
  {
    if ps != [] {
      var rest := KeepInBounds(g, ps[1..]);
      assert ps[0] !in ps[1..];
      assert ps[0] !in rest;
      KeepInBoundsDistinct(g, ps[1..]);
      var r := KeepInBounds(g, ps);
      if InBounds(g, ps[0]) {
        assert r == [ps[0]] + rest;
        forall i, j | 0 <= i < j < |r| ensures r[i] != r[j] {
          if i == 0 {
            assert r[j] == rest[j - 1] && rest[j - 1] in rest;
          } else {
            assert r[i] == rest[i - 1] && r[j] == rest[j - 1];
          }
        }
      } else {
        assert r == rest;
      }
    }
  }

  /** The cells (i, j), (i, j + 1), ..., (i, cols - 1) of row i. */
  function RowCells(i: int, j: nat, cols: nat): (r: seq<Point>)
    ensures forall p {:trigger p in r} :: p in r <==> p.0 == i && j <= p.1 < cols
    decreases cols - j
  {
    if j >= cols then [] else [(i, j)] + RowCells(i, j + 1, cols)
  }

  /** The cells of rows i .. rows - 1 of a rows x cols grid, in row-major
      (C) order, the order numpy's nonzero reports them in. */
  function RowMajor(i: nat, rows: nat, cols: nat): (r: seq<Point>)
    ensures forall p {:trigger p in r} :: p in r <==> i <= p.0 < rows && 0 <= p.1 < cols
    decreases rows - i
  {
    if i >= rows then [] else RowCells(i, 0, cols) + RowMajor(i + 1, rows, cols)
  }

  /** Slicing facts a loop over s needs at step i. */
  lemma Slices<T>(s: seq<T>, i: int)
    requires 0 <= i < |s|
    ensures s[..i + 1] == s[..i] + [s[i]]
    ensures s[..i + 1][..i] == s[..i]
    ensures s[i..] == [s[i]] + s[i + 1..]
  {
  }

  /** The whole of s, as a loop over it starts and ends. */
  lemma WholeSlices<T>(s: seq<T>)
    ensures s[..|s|] == s && s[0..] == s
  {
  }

  /** The elements of s, as a set. */
  ghost function Elems<T>(s: seq<T>): set<T> {
    set x | x in s
  }

  /** Two grids with the same dimensions. */
  ghost predicate SameShape<T>(a: Grid<T>, b: Grid<T>) {
    Rectangular(a) && Rectangular(b) && Rows(a) == Rows(b) && Cols(a) == Cols(b)
  }

  /** The laws the model takes for the Euclidean distance
      sqrt((x1 - x2)^2 + (y1 - y2)^2), which it does not compute. */
  ghost predicate DistanceLaws(dist: (Point, Point) -> real) {
    forall p: Point, q: Point :: 0.0 <= dist(p, q) && dist(p, q) == dist(q, p)
  }
}
