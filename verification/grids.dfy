/** Rectangular character (or digit) maps indexed by `Point`, as every
    `Problem` struct in the repository stores them: `map[y][x]`, with the
    width taken from the first row. */
module Grids {
  import opened Wrappers
  import opened Geometry

  type Grid<T> = seq<seq<T>>

  /** The maps are non-empty (`width()` unwraps the first row) and every row
      has the first row's length (indexing a shorter row would panic). */
  predicate Rectangular<T>(g: Grid<T>)
  {
    |g| > 0 && forall y :: 0 <= y < |g| ==> |g[y]| == |g[0]|
  }

  function Width<T>(g: Grid<T>): nat
    requires |g| > 0
  {
    |g[0]|
  }

  function Height<T>(g: Grid<T>): nat
  {
    |g|
  }

  /** `is_on_map`. */
  predicate OnMap<T>(g: Grid<T>, p: Point)
    requires |g| > 0
  {
    0 <= p.x < Width(g) && 0 <= p.y < Height(g)
  }

  /** Every on-map point, the points `iter_points` visits. */
  function Cells<T>(g: Grid<T>): (r: set<Point>)
    requires |g| > 0
    ensures forall p :: p in r <==> OnMap(g, p)
  {
    set x: int, y: int | 0 <= x < Width(g) && 0 <= y < Height(g) :: Point(x, y)
  }

  /** Visiting more cells leaves fewer unvisited ones. */
  lemma FewerLeft<T>(all: set<T>, a: set<T>, b: set<T>)
    requires a <= b <= all && a != b
    ensures |all - b| < |all - a|
  {
    var x :| x in b && x !in a;
    assert all - a == (all - b) + (b - a);
    assert (all - b) !! (b - a);
    assert x in b - a;
  }

  /** `get_char_on_point`: the cell at `p`, or `None` exactly off the map. */
  function CharAt<T>(g: Grid<T>, p: Point): (r: Option<T>)
    requires Rectangular(g)
    ensures r.None? <==> !OnMap(g, p)
  {
    if OnMap(g, p) then Some(g[p.y][p.x]) else None
  }

  /** `p` comes strictly before `q` in the row-major order of `iter_points`. */
  predicate Before(p: Point, q: Point)
  {
    p.y < q.y || (p.y == q.y && p.x < q.x)
  }

  /** `iter_points().find(|p| get_char_on_point(p) == Some(c))`, resumed at
      column `x` of row `y`. */
  function FindFrom<T(==)>(g: Grid<T>, c: T, y: nat, x: nat): (r: Option<Point>)
    requires Rectangular(g)
    ensures r.Some? ==> OnMap(g, r.value) && CharAt(g, r.value) == Some(c)
    ensures r.Some? ==> !Before(r.value, Point(x, y))
    ensures r.Some? ==> forall p :: OnMap(g, p) && !Before(p, Point(x, y)) && Before(p, r.value) ==> CharAt(g, p) != Some(c)
    ensures r.None? ==> forall p :: OnMap(g, p) && !Before(p, Point(x, y)) ==> CharAt(g, p) != Some(c)
    decreases Height(g) - y, Width(g) - x
  {
    if y >= Height(g) then None
    else if x >= Width(g) then FindFrom(g, c, y + 1, 0)
    else if g[y][x] == c then Some(Point(x, y))
    else FindFrom(g, c, y, x + 1)
  }

  /** The first on-map cell holding `c` in row-major order, or `None` when no
      cell holds it (where the Rust code would panic on `unwrap`). */
  function FindFirst<T(==)>(g: Grid<T>, c: T): (r: Option<Point>)
    requires Rectangular(g)
    ensures r.Some? ==> OnMap(g, r.value) && CharAt(g, r.value) == Some(c)
    ensures r.Some? ==> forall p :: OnMap(g, p) && Before(p, r.value) ==> CharAt(g, p) != Some(c)
    ensures r.None? <==> forall p :: OnMap(g, p) ==> CharAt(g, p) != Some(c)
  {
    FindFrom(g, c, 0, 0)
  }

  /** The first occurrence of `c` depends only on which cells hold `c`. */
  lemma FindFirstSameCells<T>(g: Grid<T>, h: Grid<T>, c: T)
    requires Rectangular(g) && Rectangular(h)
    requires forall p :: CharAt(g, p) == Some(c) <==> CharAt(h, p) == Some(c)
    ensures FindFirst(g, c) == FindFirst(h, c)
  {
  }

  /** The map with the cell at `p` replaced by `v`. */
  function Update<T>(g: Grid<T>, p: Point, v: T): (r: Grid<T>)
    requires Rectangular(g) && OnMap(g, p)
    ensures Rectangular(r) && Width(r) == Width(g) && Height(r) == Height(g)
    ensures CharAt(r, p) == Some(v)
    ensures forall q :: q != p ==> CharAt(r, q) == CharAt(g, q)
  {
    g[p.y := g[p.y][p.x := v]]
  }
}
