/** Integer plane coordinates shared by every puzzle. The Rust sources use
    `i32`/`i64` coordinates that never approach their limits, so the model
    uses unbounded integers. */
module Geometry {

  datatype Point = Point(x: int, y: int)

  const Origin: Point := Point(0, 0)

  /** Component-wise sum (`Point::add`). */
  function Add(p: Point, q: Point): Point
  {
    Point(p.x + q.x, p.y + q.y)
  }

  /** Component-wise difference (`Point::minus`). */
  function Minus(p: Point, q: Point): Point
  {
    Point(p.x - q.x, p.y - q.y)
  }

  /** `p` scaled by the integer `k` (`Point::mul`). */
  function Scale(p: Point, k: int): Point
  {
    Point(p.x * k, p.y * k)
  }

  /** The point reached after `k` steps of `d` from `p`. */
  function Ray(p: Point, d: Point, k: int): Point
  {
    Point(p.x + k * d.x, p.y + k * d.y)
  }

  /** One more step along a ray. */
  lemma RayStep(p: Point, d: Point, k: int)
    ensures Ray(p, d, k + 1) == Add(Ray(p, d, k), d)
  {
    assert (k + 1) * d.x == k * d.x + d.x;
    assert (k + 1) * d.y == k * d.y + d.y;
  }

  function Neg(p: Point): Point
  {
    Point(-p.x, -p.y)
  }

  /** `a.abs_diff(b)`. */
  function AbsDiff(a: int, b: int): (r: nat)
    ensures r == a - b || r == b - a
  {
    if a < b then b - a else a - b
  }

  /** Manhattan distance (`Point::distance`): symmetric, and zero exactly on
      equal points. */
  function Manhattan(p: Point, q: Point): (r: nat)
    ensures r == 0 <==> p == q
  {
    AbsDiff(p.x, q.x) + AbsDiff(p.y, q.y)
  }

  lemma ManhattanSymmetric(p: Point, q: Point)
    ensures Manhattan(p, q) == Manhattan(q, p)
  {
  }

  /** One of the four orthogonal unit offsets. */
  predicate IsUnit(d: Point)
  {
    Manhattan(d, Origin) == 1
  }

  lemma UnitCases(d: Point)
    requires IsUnit(d)
    ensures d == Point(1, 0) || d == Point(-1, 0) || d == Point(0, 1) || d == Point(0, -1)
  {
  }

  /** The four orthogonal offsets `dxdys`, in the order the searches of
      days 10, 12 and 18 try them. */
  const Dirs: seq<Point> := [Point(-1, 0), Point(1, 0), Point(0, -1), Point(0, 1)]

  /** The offsets tried are exactly the orthogonal unit offsets. */
  lemma DirsAreUnits(d: Point)
    ensures d in Dirs <==> IsUnit(d)
  {
    if IsUnit(d) {
      UnitCases(d);
    }
    if d in Dirs {
      assert d == Point(-1, 0) || d == Point(1, 0) || d == Point(0, -1) || d == Point(0, 1);
    }
  }

  /** A unit step changes the distance to any point by exactly one. */
  lemma UnitStepDistance(p: Point, d: Point, g: Point)
    requires IsUnit(d)
    ensures Manhattan(Add(p, d), g) == Manhattan(p, g) + 1
         || Manhattan(Add(p, d), g) + 1 == Manhattan(p, g)
  {
    UnitCases(d);
    var q := Add(p, d);
    if d.x != 0 {
      assert q.y == p.y;
    } else {
      assert q.x == p.x;
    }
  }

  /** The triangle inequality for Manhattan distance. */
  lemma Triangle(p: Point, q: Point, r: Point)
    ensures Manhattan(p, r) <= Manhattan(p, q) + Manhattan(q, r)
  {
  }
}
