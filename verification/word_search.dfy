/** Day 4: counting XMAS in a letter grid in eight directions, and counting
    X-shaped pairs of MAS. */
module WordSearch {
  import opened Wrappers
  import opened Geometry
  import opened Grids

  const Xmas: seq<char> := "XMAS"

  /** The eight directions `is_expected_char_on_point_on_map` tries. */
  const Directions: seq<Point> := [Point(0, 1), Point(0, -1), Point(-1, 0), Point(1, 0),
                                   Point(1, 1), Point(-1, -1), Point(1, -1), Point(-1, 1)]

  /** `is_expected_char_on_point_on_map_h`: the letters `expected[i..]` lie at
      `p`, `p + d`, `p + 2d`, ... */
  function MatchesFrom(g: Grid<char>, p: Point, d: Point, i: nat, expected: seq<char>): bool
    requires Rectangular(g)
    decreases |expected| - i
  {
    i >= |expected| || (CharAt(g, p) == Some(expected[i]) && MatchesFrom(g, Add(p, d), d, i + 1, expected))
  }

  /** The recursion matches letter `k` against the cell `k - i` steps away,
      for every remaining `k`. */
  lemma {:induction false} MatchesFromIff(g: Grid<char>, p: Point, d: Point, i: nat, expected: seq<char>)
    requires Rectangular(g)
    ensures MatchesFrom(g, p, d, i, expected) <==>
              forall k :: i <= k < |expected| ==> CharAt(g, Ray(p, d, k - i)) == Some(expected[k])
    decreases |expected| - i
  {
    if i < |expected| {
      MatchesFromIff(g, Add(p, d), d, i + 1, expected);
      forall n: int ensures Ray(Add(p, d), d, n) == Ray(p, d, n + 1) {
        assert n * d.x + d.x == (n + 1) * d.x;
        assert n * d.y + d.y == (n + 1) * d.y;
      }
      assert Ray(p, d, i - i) == p;
    }
  }

  /** How many of the first `n` directions spell XMAS starting at `p`. */
  function CountMatches(g: Grid<char>, p: Point, n: nat): (r: nat)
    requires Rectangular(g) && n <= |Directions|
    ensures r <= n
    ensures r > 0 ==> CharAt(g, p) == Some('X')
  {
    if n == 0 then 0
    else CountMatches(g, p, n - 1) + (if MatchesFrom(g, p, Directions[n - 1], 0, Xmas) then 1 else 0)
  }

  /** `is_expected_char_on_point_on_map`: the number of directions in which
      XMAS reads from `p`; between 0 and 8, and 0 unless `p` holds 'X'. */
  function XmasCount(g: Grid<char>, p: Point): (r: nat)
    requires Rectangular(g)
    ensures r <= 8
    ensures r > 0 ==> CharAt(g, p) == Some('X')
  {
    CountMatches(g, p, |Directions|)
  }

  /** A point counts in a direction iff the four letters lie on the ray. */
  lemma XmasInDirection(g: Grid<char>, p: Point, d: Point)
    requires Rectangular(g)
    ensures MatchesFrom(g, p, d, 0, Xmas) <==>
              && CharAt(g, p) == Some('X') && CharAt(g, Ray(p, d, 1)) == Some('M')
              && CharAt(g, Ray(p, d, 2)) == Some('A') && CharAt(g, Ray(p, d, 3)) == Some('S')
  {
    MatchesFromIff(g, p, d, 0, Xmas);
    assert Ray(p, d, 0) == p;
  }

  /** `get_all_chars_on_points`: the cells at `points`, in order, or `None`
      when any of them is off the map. */
  function CharsAt(g: Grid<char>, points: seq<Point>): (r: Option<seq<char>>)
    requires Rectangular(g)
    ensures r.None? <==> exists k :: 0 <= k < |points| && !OnMap(g, points[k])
    ensures r.Some? ==> |r.value| == |points|
                        && forall k :: 0 <= k < |points| ==> CharAt(g, points[k]) == Some(r.value[k])
  {
    if |points| == 0 then Some([])
    else
      match CharAt(g, points[0])
      case None => None
      case Some(c) =>
        var rest := CharsAt(g, points[1..]);
        if rest.None? then
          var k :| 0 <= k < |points[1..]| && !OnMap(g, points[1..][k]);
          assert !OnMap(g, points[k + 1]);
          None
        else
          Some([c] + rest.value)
  }

  /** `is_sam`: the letters spell SAM or MAS. */
  predicate IsSam(chars: Option<seq<char>>)
  {
    match chars
    case Some(cs) => cs == "SAM" || cs == "MAS"
    case None => false
  }

  /** A bar reads SAM or MAS in either direction: 'A' in the middle, an
      'M' at one end and an 'S' at the other. */
  lemma IsSamEitherWay(a: char, b: char, c: char)
    ensures IsSam(Some([a, b, c])) <==> IsSam(Some([c, b, a]))
    ensures IsSam(Some([a, b, c])) <==> b == 'A' && {a, c} == {'M', 'S'}
  {
    assert [a, b, c] == "SAM" <==> a == 'S' && b == 'A' && c == 'M';
    assert [a, b, c] == "MAS" <==> a == 'M' && b == 'A' && c == 'S';
    assert [c, b, a] == "SAM" <==> c == 'S' && b == 'A' && a == 'M';
    assert [c, b, a] == "MAS" <==> c == 'M' && b == 'A' && a == 'S';
    if {a, c} == {'M', 'S'} {
      assert a in {'M', 'S'} && c in {'M', 'S'} && a != c;
    }
  }

  /** `is_expected_x_char_on_point_on_map`: both diagonals through `p` read
      SAM or MAS. */
  predicate IsCrossMas(g: Grid<char>, p: Point)
    requires Rectangular(g)
  {
    && IsSam(CharsAt(g, [Add(p, Point(-1, -1)), p, Add(p, Point(1, 1))]))
    && IsSam(CharsAt(g, [Add(p, Point(1, -1)), p, Add(p, Point(-1, 1))]))
  }

  /** An X-MAS has 'A' at its centre, and its four diagonal neighbours are on
      the map holding an 'M' and an 'S' on each diagonal. */
  lemma CrossMasShape(g: Grid<char>, p: Point)
    requires Rectangular(g) && IsCrossMas(g, p)
    ensures CharAt(g, p) == Some('A')
    ensures forall q :: q in [Point(-1, -1), Point(1, 1), Point(1, -1), Point(-1, 1)] ==> OnMap(g, Add(p, q))
    ensures {CharAt(g, Add(p, Point(-1, -1))), CharAt(g, Add(p, Point(1, 1)))} == {Some('M'), Some('S')}
    ensures {CharAt(g, Add(p, Point(1, -1))), CharAt(g, Add(p, Point(-1, 1)))} == {Some('M'), Some('S')}
  {
    var left := [Add(p, Point(-1, -1)), p, Add(p, Point(1, 1))];
    var right := [Add(p, Point(1, -1)), p, Add(p, Point(-1, 1))];
    var l := CharsAt(g, left).value;
    var r := CharsAt(g, right).value;
    assert CharAt(g, left[1]) == Some(l[1]);
    assert CharAt(g, left[0]) == Some(l[0]) && CharAt(g, left[2]) == Some(l[2]);
    assert CharAt(g, right[0]) == Some(r[0]) && CharAt(g, right[2]) == Some(r[2]);
    IsSamEitherWay(l[0], l[1], l[2]);
    IsSamEitherWay(r[0], r[1], r[2]);
    assert l == [l[0], l[1], l[2]] && r == [r[0], r[1], r[2]];
  }

  /** The converse: 'A' at the centre, the four diagonal neighbours on the
      map, and an 'M' and an 'S' on each diagonal make an X-MAS. */
  lemma ShapeIsCrossMas(g: Grid<char>, p: Point)
    requires Rectangular(g)
    requires CharAt(g, p) == Some('A')
    requires forall q :: q in [Point(-1, -1), Point(1, 1), Point(1, -1), Point(-1, 1)] ==> OnMap(g, Add(p, q))
    requires {CharAt(g, Add(p, Point(-1, -1))), CharAt(g, Add(p, Point(1, 1)))} == {Some('M'), Some('S')}
    requires {CharAt(g, Add(p, Point(1, -1))), CharAt(g, Add(p, Point(-1, 1)))} == {Some('M'), Some('S')}
    ensures IsCrossMas(g, p)
  {
    var left := [Add(p, Point(-1, -1)), p, Add(p, Point(1, 1))];
    var right := [Add(p, Point(1, -1)), p, Add(p, Point(-1, 1))];
    assert Point(-1, -1) in [Point(-1, -1), Point(1, 1), Point(1, -1), Point(-1, 1)];
    assert Point(1, 1) in [Point(-1, -1), Point(1, 1), Point(1, -1), Point(-1, 1)];
    assert Point(1, -1) in [Point(-1, -1), Point(1, 1), Point(1, -1), Point(-1, 1)];
    assert Point(-1, 1) in [Point(-1, -1), Point(1, 1), Point(1, -1), Point(-1, 1)];
    DiagonalReads(g, left);
    DiagonalReads(g, right);
  }

  /** A diagonal of three on-map cells with 'A' in the middle and an 'M'
      and an 'S' at the ends reads SAM or MAS. */
  lemma DiagonalReads(g: Grid<char>, bar: seq<Point>)
    requires Rectangular(g) && |bar| == 3
    requires OnMap(g, bar[0]) && OnMap(g, bar[2]) && CharAt(g, bar[1]) == Some('A')
    requires {CharAt(g, bar[0]), CharAt(g, bar[2])} == {Some('M'), Some('S')}
    ensures IsSam(CharsAt(g, bar))
  {
    var cs := CharsAt(g, bar);
    assert cs.Some? by {
      forall k | 0 <= k < |bar| ensures OnMap(g, bar[k]) {
        if k == 1 {
          assert CharAt(g, bar[1]).Some?;
        }
      }
    }
    var l := cs.value;
    assert CharAt(g, bar[0]) == Some(l[0]) && CharAt(g, bar[1]) == Some(l[1]) && CharAt(g, bar[2]) == Some(l[2]);
    assert Some(l[0]) in {Some('M'), Some('S')} && Some(l[2]) in {Some('M'), Some('S')};
    assert {l[0], l[2]} == {'M', 'S'};
    IsSamEitherWay(l[0], l[1], l[2]);
    assert l == [l[0], l[1], l[2]];
  }
}
