/** Day 8: antinodes of pairs of same-frequency antennas, on the map. */
module Antennas {
  import opened Wrappers
  import opened Geometry
  import opened Grids

  /** `Point::difference`: the offset from the antenna further left (or
      the first, on a tie) to the other; its x part is never negative. */
  function Difference(a: Point, b: Point): (d: Point)
    ensures d.x >= 0
    ensures a.x <= b.x ==> Add(a, d) == b
    ensures a.x > b.x ==> Add(b, d) == a
  {
    if a.x <= b.x then Point(b.x - a.x, b.y - a.y) else Point(a.x - b.x, a.y - b.y)
  }

  /** `minus` undoes `add`. */
  lemma MinusUndoesAdd(p: Point, d: Point)
    ensures Minus(Add(p, d), d) == p && Add(Minus(p, d), d) == p
  {
  }

  /** The difference does not depend on the order of two antennas unless
      they share a column. */
  lemma DifferenceOrder(a: Point, b: Point)
    ensures a.x != b.x ==> Difference(a, b) == Difference(b, a)
    ensures a.x == b.x ==> Difference(a, b) == Neg(Difference(b, a))
  {
  }

  /** The pair sorted by x, the first kept on a tie. */
  function LeftFirst(a: Point, b: Point): (Point, Point)
  {
    if a.x <= b.x then (a, b) else (b, a)
  }

  /** `match_antinode_condition`. */
  predicate IsStrictAntinodeOf(a: Point, b: Point, p: Point)
  {
    var l := LeftFirst(a, b).0;
    var r := LeftFirst(a, b).1;
    var d := Difference(l, r);
    p == Minus(l, d) || p == Add(r, d)
  }

  /** An antinode lies on the line through the pair, twice as far from one
      antenna as from the other: `2a - b` or `2b - a`. The condition is
      symmetric in the two antennas. */
  lemma StrictAntinodeIff(a: Point, b: Point, p: Point)
    ensures IsStrictAntinodeOf(a, b, p) <==>
              p == Point(2 * a.x - b.x, 2 * a.y - b.y) || p == Point(2 * b.x - a.x, 2 * b.y - a.y)
    ensures IsStrictAntinodeOf(a, b, p) == IsStrictAntinodeOf(b, a, p)
  {
  }

  /** The point reached after `k` steps of `d` from `start`. */
  function Walk(start: Point, d: Point, k: nat): Point
  {
    if k == 0 then start else Add(Walk(start, d, k - 1), d)
  }

  /** The walk advances by `d` per step: it is the ray `start + k * d`. */
  lemma {:induction false} WalkIsRay(start: Point, d: Point, k: nat)
    ensures Walk(start, d, k) == Ray(start, d, k)
  {
    if k > 0 {
      WalkIsRay(start, d, k - 1);
      RayStep(start, d, k - 1);
    }
  }

  /** `p` is met walking from `start` in steps of `d` before the walk leaves
      the map. */
  ghost predicate MetBeforeLeaving(g: Grid<char>, start: Point, d: Point, p: Point)
    requires Rectangular(g)
  {
    exists k: nat :: p == Walk(start, d, k) && forall j: nat :: j <= k ==> OnMap(g, Walk(start, d, j))
  }

  /** One `while is_on_map` loop of `match_antinode_condition_relaxed`. It
      ends because `d` is not zero and the map is bounded. */
  method WalkUntilOff(g: Grid<char>, start: Point, d: Point, p: Point) returns (found: bool)
    requires Rectangular(g) && d != Origin
    ensures found <==> MetBeforeLeaving(g, start, d, p)
  {
    var q := start;
    ghost var k: nat := 0;
    while OnMap(g, q)
      invariant q == Walk(start, d, k)
      invariant forall j: nat :: j < k ==> OnMap(g, Walk(start, d, j)) && Walk(start, d, j) != p
      decreases if d.x > 0 then Width(g) - q.x else if d.x < 0 then q.x + 1
                else if d.y > 0 then Height(g) - q.y else q.y + 1
    {
      if p == q {
        assert forall j: nat :: j <= k ==> OnMap(g, Walk(start, d, j));
        return true;
      }
      q := Add(q, d);
      k := k + 1;
    }
    return false;
  }

  /** The relaxed condition: `p` is met walking outwards from the left
      antenna against the difference, or from the right antenna along it,
      before the walk leaves the map. */
  ghost predicate IsRelaxedAntinodeOf(g: Grid<char>, a: Point, b: Point, p: Point)
    requires Rectangular(g)
  {
    var l := LeftFirst(a, b).0;
    var r := LeftFirst(a, b).1;
    MetBeforeLeaving(g, l, Neg(Difference(l, r)), p) || MetBeforeLeaving(g, r, Difference(l, r), p)
  }

  /** `match_antinode_condition_relaxed`: the two `while is_on_map` walks.
      The antennas must differ, as the pairs of distinct points the caller
      forms do; equal antennas would loop forever. */
  method MatchRelaxed(g: Grid<char>, a: Point, b: Point, p: Point) returns (r: bool)
    requires Rectangular(g) && a != b
    ensures r <==> IsRelaxedAntinodeOf(g, a, b, p)
  {
    var l := LeftFirst(a, b).0;
    var rr := LeftFirst(a, b).1;
    var d := Difference(l, rr);
    r := WalkUntilOff(g, l, Neg(d), p);
    if !r {
      r := WalkUntilOff(g, rr, d, p);
    }
  }

  /** On-map antennas are relaxed antinodes of their own pairs. */
  lemma AntennaIsRelaxedAntinode(g: Grid<char>, a: Point, b: Point)
    requires Rectangular(g) && OnMap(g, a) && OnMap(g, b)
    ensures IsRelaxedAntinodeOf(g, a, b, a)
  {
    var l := LeftFirst(a, b).0;
    var r := LeftFirst(a, b).1;
    var d := Difference(l, r);
    if a == l {
      assert Walk(l, Neg(d), 0) == a;
      assert forall j: nat :: j <= 0 ==> Walk(l, Neg(d), j) == l;
    } else {
      assert Walk(r, d, 0) == a;
      assert forall j: nat :: j <= 0 ==> Walk(r, d, j) == r;
    }
  }

  /** An on-map strict antinode of two on-map antennas is a relaxed
      antinode: it is one step beyond an antenna. */
  lemma StrictImpliesRelaxed(g: Grid<char>, a: Point, b: Point, p: Point)
    requires Rectangular(g) && OnMap(g, a) && OnMap(g, b) && OnMap(g, p)
    requires IsStrictAntinodeOf(a, b, p)
    ensures IsRelaxedAntinodeOf(g, a, b, p)
  {
    var l := LeftFirst(a, b).0;
    var r := LeftFirst(a, b).1;
    var d := Difference(l, r);
    if p == Minus(l, d) {
      assert Walk(l, Neg(d), 1) == p && Walk(l, Neg(d), 0) == l;
      assert forall j: nat :: j <= 1 ==> Walk(l, Neg(d), j) == l || Walk(l, Neg(d), j) == p;
    } else {
      assert Walk(r, d, 1) == p && Walk(r, d, 0) == r;
      assert forall j: nat :: j <= 1 ==> Walk(r, d, j) == r || Walk(r, d, j) == p;
    }
  }

  /** A cell holding an antenna: anything but '.' and '#'. */
  predicate IsAntenna(g: Grid<char>, p: Point)
    requires Rectangular(g)
  {
    OnMap(g, p) && CharAt(g, p) != Some('.') && CharAt(g, p) != Some('#')
  }

  /** The grouping of `solve`: every antenna cell under its frequency,
      collected in row-major order. */
  method GroupAntennas(g: Grid<char>) returns (groups: map<char, set<Point>>)
    requires Rectangular(g)
    ensures GroupsOf(g, groups)
  {
    groups := map[];
    var y := 0;
    while y < Height(g)
      invariant 0 <= y <= Height(g)
      invariant forall c, p :: c in groups && p in groups[c] <==>
                  IsAntenna(g, p) && CharAt(g, p) == Some(c) && p.y < y
    {
      var x := 0;
      while x < Width(g)
        invariant 0 <= x <= Width(g)
        invariant forall c, p :: c in groups && p in groups[c] <==>
                    IsAntenna(g, p) && CharAt(g, p) == Some(c) && (p.y < y || (p.y == y && p.x < x))
      {
        var p := Point(x, y);
        var c := g[y][x];
        assert CharAt(g, p) == Some(c);
        if c != '.' && c != '#' {
          var old_ := if c in groups then groups[c] else {};
          groups := groups[c := old_ + {p}];
        }
        x := x + 1;
      }
      y := y + 1;
    }
  }

  /** `grouped` is what `GroupAntennas` builds for `g`. */
  ghost predicate GroupsOf(g: Grid<char>, grouped: map<char, set<Point>>)
    requires Rectangular(g)
  {
    forall c, p :: c in grouped && p in grouped[c] <==> IsAntenna(g, p) && CharAt(g, p) == Some(c)
  }

  /** `is_antinode`: a strict antinode of some pair of distinct antennas of
      one frequency. The source visits each unordered pair once; the
      condition is symmetric, so ranging over ordered pairs is the same. */
  predicate IsAntinode(grouped: map<char, set<Point>>, p: Point)
  {
    exists c, a, b :: c in grouped && a in grouped[c] && b in grouped[c] && a != b && IsStrictAntinodeOf(a, b, p)
  }

  /** Two distinct antennas of one frequency. */
  predicate SameFrequency(g: Grid<char>, a: Point, b: Point)
    requires Rectangular(g)
  {
    a != b && IsAntenna(g, a) && IsAntenna(g, b) && CharAt(g, a) == CharAt(g, b)
  }

  /** Over the grouping of a map, a point is an antinode exactly when two
      distinct antennas of one frequency put it at `2a - b`. */
  lemma AntinodeIff(g: Grid<char>, grouped: map<char, set<Point>>, p: Point)
    requires Rectangular(g) && GroupsOf(g, grouped)
    ensures IsAntinode(grouped, p) <==>
              exists a, b :: SameFrequency(g, a, b) && p == Point(2 * a.x - b.x, 2 * a.y - b.y)
  {
    if IsAntinode(grouped, p) {
      var c, a, b :| c in grouped && a in grouped[c] && b in grouped[c] && a != b && IsStrictAntinodeOf(a, b, p);
      AntinodeFromPair(g, grouped, c, a, b, p);
    }
    if exists a, b :: SameFrequency(g, a, b) && p == Point(2 * a.x - b.x, 2 * a.y - b.y) {
      var a, b :| SameFrequency(g, a, b) && p == Point(2 * a.x - b.x, 2 * a.y - b.y);
      PairFromAntennas(g, grouped, a, b);
      StrictAntinodeIff(a, b, p);
    }
  }

  lemma AntinodeFromPair(g: Grid<char>, grouped: map<char, set<Point>>, c: char, a: Point, b: Point, p: Point)
    requires Rectangular(g) && GroupsOf(g, grouped)
    requires c in grouped && a in grouped[c] && b in grouped[c] && a != b && IsStrictAntinodeOf(a, b, p)
    ensures SameFrequency(g, a, b) && SameFrequency(g, b, a)
    ensures p == Point(2 * a.x - b.x, 2 * a.y - b.y) || p == Point(2 * b.x - a.x, 2 * b.y - a.y)
  {
    StrictAntinodeIff(a, b, p);
  }

  lemma PairFromAntennas(g: Grid<char>, grouped: map<char, set<Point>>, a: Point, b: Point)
    requires Rectangular(g) && GroupsOf(g, grouped) && SameFrequency(g, a, b)
    ensures var c := CharAt(g, a).value; c in grouped && a in grouped[c] && b in grouped[c]
  {
  }

  /** Pairs of distinct antennas of one frequency. */
  function Pairs(grouped: map<char, set<Point>>): (r: set<(Point, Point)>)
    ensures forall a, b :: (a, b) in r <==> a != b && exists c :: c in grouped && a in grouped[c] && b in grouped[c]
  {
    set c, a, b | c in grouped && a in grouped[c] && b in grouped[c] && a != b :: (a, b)
  }

  /** `is_antinode_relaxed`: some pair of distinct same-frequency antennas
      has `p` on one of its outward walks. */
  method IsAntinodeRelaxed(g: Grid<char>, grouped: map<char, set<Point>>, p: Point) returns (r: bool)
    requires Rectangular(g)
    ensures r <==> exists pr :: pr in Pairs(grouped) && IsRelaxedAntinodeOf(g, pr.0, pr.1, p)
  {
    var todo := Pairs(grouped);
    ghost var pairs := todo;
    r := false;
    while todo != {}
      invariant todo <= pairs
      invariant r <==> exists pr :: pr in pairs && pr !in todo && IsRelaxedAntinodeOf(g, pr.0, pr.1, p)
      decreases |todo|
    {
      var pr :| pr in todo;
      var hit := MatchRelaxed(g, pr.0, pr.1, p);
      r := r || hit;
      todo := todo - {pr};
    }
  }
}
