/** Day 12: garden plots of plant types. A region is a maximal set of plots
    of one plant type joined by orthogonal steps. Its fence price is its
    area times its perimeter; the "bulk" price of part two is left
    unfinished in the Rust code and is always 0. `FencingBulkBySides` gives
    the price its empty loops were meant to compute: area times the number
    of straight sides. */
module GardenGroups {
  import opened Geometry
  import opened Grids

  type Garden = Grid<char>

  /** Two on-map plots side by side with the same plant. */
  predicate Neighbours(g: Garden, p: Point, q: Point)
    requires Rectangular(g)
  {
    OnMap(g, p) && OnMap(g, q) && IsUnit(Minus(q, p)) && g[p.y][p.x] == g[q.y][q.x]
  }

  /** A walk through plots of one plant, one orthogonal step at a time. */
  predicate IsWalk(g: Garden, w: seq<Point>)
    requires Rectangular(g)
  {
    && |w| > 0
    && (forall i :: 0 <= i < |w| ==> OnMap(g, w[i]))
    && (forall i :: 0 <= i < |w| - 1 ==> Neighbours(g, w[i], w[i + 1]))
  }

  /** `a` and `b` lie in the same region. */
  ghost predicate Connected(g: Garden, a: Point, b: Point)
    requires Rectangular(g)
  {
    exists w :: IsWalk(g, w) && w[0] == a && w[|w| - 1] == b
  }

  lemma WalkExtend(g: Garden, w: seq<Point>, q: Point)
    requires Rectangular(g) && IsWalk(g, w) && Neighbours(g, w[|w| - 1], q)
    ensures IsWalk(g, w + [q])
  {
    var u := w + [q];
    forall i | 0 <= i < |u| - 1
      ensures Neighbours(g, u[i], u[i + 1])
    {
      if i < |w| - 1 {
        assert u[i] == w[i] && u[i + 1] == w[i + 1];
      }
    }
  }

  lemma ConnectedStep(g: Garden, s: Point, p: Point, q: Point)
    requires Rectangular(g) && Connected(g, s, p) && Neighbours(g, p, q)
    ensures Connected(g, s, q)
  {
    var w :| IsWalk(g, w) && w[0] == s && w[|w| - 1] == p;
    WalkExtend(g, w, q);
    assert (w + [q])[0] == s;
  }

  /** Every plot of a walk has the plant of its first plot. */
  lemma {:induction false} WalkSamePlant(g: Garden, w: seq<Point>, i: nat)
    requires Rectangular(g) && IsWalk(g, w) && i < |w|
    ensures g[w[i].y][w[i].x] == g[w[0].y][w[0].x]
  {
    if i > 0 {
      WalkSamePlant(g, w, i - 1);
      assert Neighbours(g, w[i - 1], w[i]);
    }
  }

  /** A walk backwards is a walk. */
  lemma WalkReverse(g: Garden, w: seq<Point>) returns (v: seq<Point>)
    requires Rectangular(g) && IsWalk(g, w)
    ensures IsWalk(g, v) && v[0] == w[|w| - 1] && v[|v| - 1] == w[0]
  {
    v := seq(|w|, i requires 0 <= i < |w| => w[|w| - 1 - i]);
    forall i | 0 <= i < |v| - 1 ensures Neighbours(g, v[i], v[i + 1]) {
      var j := |w| - 2 - i;
      assert Neighbours(g, w[j], w[j + 1]);
      assert v[i] == w[j + 1] && v[i + 1] == w[j];
    }
  }

  /** A set closed under `Neighbours` holding the first plot of a walk holds
      its last plot. */
  lemma {:induction false} ClosedHoldsWalk(g: Garden, s: set<Point>, w: seq<Point>)
    requires Rectangular(g) && IsWalk(g, w) && w[0] in s
    requires forall p, q :: p in s && Neighbours(g, p, q) ==> q in s
    ensures w[|w| - 1] in s
    decreases |w|
  {
    if |w| > 1 {
      var prefix := w[..|w| - 1];
      assert IsWalk(g, prefix) by {
        forall i | 0 <= i < |prefix| - 1 ensures Neighbours(g, prefix[i], prefix[i + 1]) {
          assert Neighbours(g, w[i], w[i + 1]);
        }
      }
      ClosedHoldsWalk(g, s, prefix);
      assert Neighbours(g, w[|w| - 2], w[|w| - 1]);
    }
  }

  // ---------------------------------------------------------------------
  // `find_region`: a flood fill from the seed.

  /** The Rust filter for a neighbour `q`: it carries the seed's plant and
      is not yet in the region. */
  predicate Accepted(g: Garden, seed: Point, q: Point, seen: set<Point>)
    requires Rectangular(g)
  {
    CharAt(g, seed) == CharAt(g, q) && q !in seen
  }

  /** The accepted neighbours `p + d` for the offsets `ds`, in order. */
  function AcceptedAlong(g: Garden, seed: Point, p: Point, ds: seq<Point>, seen: set<Point>): (r: seq<Point>)
    requires Rectangular(g)
    ensures forall k :: 0 <= k < |r| ==> Minus(r[k], p) in ds && Accepted(g, seed, r[k], seen)
    ensures forall d :: d in ds && Accepted(g, seed, Add(p, d), seen) ==> Add(p, d) in r
  {
    if |ds| == 0 then []
    else
      var q := Add(p, ds[0]);
      assert Minus(q, p) == ds[0];
      (if Accepted(g, seed, q, seen) then [q] else []) + AcceptedAlong(g, seed, p, ds[1..], seen)
  }

  /** The neighbours of `p` the flood fill queues: for `p` of the seed's
      plant, exactly the same-plant neighbours not yet in the region. */
  function NewNeighbours(g: Garden, seed: Point, p: Point, seen: set<Point>): (r: seq<Point>)
    requires Rectangular(g) && OnMap(g, seed) && OnMap(g, p) && g[p.y][p.x] == g[seed.y][seed.x]
    ensures forall k :: 0 <= k < |r| ==> Neighbours(g, p, r[k]) && r[k] !in seen
    ensures forall q :: Neighbours(g, p, q) && q !in seen ==> q in r
  {
    var r := AcceptedAlong(g, seed, p, Dirs, seen);
    forall q | Neighbours(g, p, q) && q !in seen ensures q in r {
      DirsAreUnits(Minus(q, p));
      assert q == Add(p, Minus(q, p));
    }
    forall k | 0 <= k < |r| ensures Neighbours(g, p, r[k]) {
      DirsAreUnits(Minus(r[k], p));
    }
    r
  }

  /** The flood fill's state: every plot in the region or the queue is
      connected to the seed, the seed is in one of them, and every neighbour
      of a region plot is in the region or queued. */
  ghost predicate FillInvariant(g: Garden, seed: Point, points: set<Point>, queue: seq<Point>)
    requires Rectangular(g)
  {
    && (forall p :: p in points ==> OnMap(g, p) && Connected(g, seed, p))
    && (forall k :: 0 <= k < |queue| ==> OnMap(g, queue[k]) && Connected(g, seed, queue[k]))
    && (seed in points || seed in queue)
    && (forall p, q :: p in points && Neighbours(g, p, q) ==> q in points || q in queue)
  }

  method FillStep(g: Garden, seed: Point, points0: set<Point>, queue0: seq<Point>)
    returns (points: set<Point>, queue: seq<Point>)
    requires Rectangular(g) && OnMap(g, seed) && |queue0| > 0 && FillInvariant(g, seed, points0, queue0)
    ensures FillInvariant(g, seed, points, queue)
    ensures points0 <= points <= Cells(g)
    ensures points == points0 ==> |queue| < |queue0|
  {
    var current := queue0[0];
    queue := queue0[1..];
    points := points0;
    if current in points {
      forall p, q | p in points && Neighbours(g, p, q) ensures q in points || q in queue {
        if q !in points {
          assert q in queue0;
        }
      }
      return;
    }
    points := points + {current};
    assert g[current.y][current.x] == g[seed.y][seed.x] by {
      var w :| IsWalk(g, w) && w[0] == seed && w[|w| - 1] == current;
      WalkSamePlant(g, w, |w| - 1);
    }
    var next := NewNeighbours(g, seed, current, points);
    forall k | 0 <= k < |next| ensures Connected(g, seed, next[k]) {
      ConnectedStep(g, seed, current, next[k]);
    }
    queue := queue + next;
    forall p, q | p in points && Neighbours(g, p, q) ensures q in points || q in queue {
      if q !in points && p != current {
        assert q in queue0 && q != current;
      }
    }
  }

  /** `find_region`: exactly the plots connected to the seed. The region
      holds the seed, every plot carries the seed's plant, and it is closed:
      a same-plant neighbour of a plot is in it. */
  method FindRegion(g: Garden, seed: Point) returns (points: set<Point>)
    requires Rectangular(g) && OnMap(g, seed)
    ensures forall p :: p in points <==> Connected(g, seed, p)
    ensures seed in points
    ensures forall p :: p in points ==> OnMap(g, p) && g[p.y][p.x] == g[seed.y][seed.x]
    ensures forall p, q :: p in points && Neighbours(g, p, q) ==> q in points
  {
    points := {};
    var queue := [seed];
    assert IsWalk(g, [seed]);
    while |queue| > 0
      invariant FillInvariant(g, seed, points, queue)
      invariant points <= Cells(g)
      decreases |Cells(g) - points|, |queue|
    {
      var points', queue' := FillStep(g, seed, points, queue);
      if points' != points {
        FewerLeft(Cells(g), points, points');
      }
      points, queue := points', queue';
    }
    forall p | Connected(g, seed, p) ensures p in points {
      var w :| IsWalk(g, w) && w[0] == seed && w[|w| - 1] == p;
      ClosedHoldsWalk(g, points, w);
    }
    forall p | p in points ensures g[p.y][p.x] == g[seed.y][seed.x] {
      var w :| IsWalk(g, w) && w[0] == seed && w[|w| - 1] == p;
      WalkSamePlant(g, w, |w| - 1);
    }
  }

  // ---------------------------------------------------------------------
  // Fencing.

  /** The fence segments of a region: a plot and a side on which the
      neighbour is outside the region. */
  ghost function Fences(region: set<Point>, plots: set<Point>): set<(Point, Point)>
  {
    set p, d | p in plots && d in Dirs && Add(p, d) !in region :: (p, d)
  }

  /** The sides of `p`, among `ds`, that face out of the region. */
  function SidesOut(region: set<Point>, p: Point, ds: seq<Point>): (r: nat)
    ensures r <= |ds|
  {
    if |ds| == 0 then 0
    else (if Add(p, ds[0]) !in region then 1 else 0) + SidesOut(region, p, ds[1..])
  }

  /** The fence segments of `p` on the sides `ds`. */
  ghost function FencesOn(region: set<Point>, p: Point, ds: seq<Point>): set<(Point, Point)>
  {
    set d | d in ds && Add(p, d) !in region :: (p, d)
  }

  lemma {:induction false} SidesOutCount(region: set<Point>, p: Point, ds: seq<Point>)
    requires forall i, j :: 0 <= i < j < |ds| ==> ds[i] != ds[j]
    ensures |FencesOn(region, p, ds)| == SidesOut(region, p, ds)
    decreases |ds|
  {
    if |ds| > 0 {
      SidesOutCount(region, p, ds[1..]);
      var rest := FencesOn(region, p, ds[1..]);
      assert (p, ds[0]) !in rest by {
        forall i | 0 <= i < |ds[1..]| ensures ds[1..][i] != ds[0] {
          assert ds[1..][i] == ds[i + 1];
        }
      }
      if Add(p, ds[0]) !in region {
        assert FencesOn(region, p, ds) == rest + {(p, ds[0])};
      } else {
        assert FencesOn(region, p, ds) == rest;
      }
    }
  }

  /** Each plot contributes between 0 and 4 fence segments. */
  lemma PlotFences(region: set<Point>, p: Point)
    ensures |FencesOn(region, p, Dirs)| == SidesOut(region, p, Dirs) <= 4
  {
    SidesOutCount(region, p, Dirs);
  }

  /** Adding a plot adds its own fence segments, disjoint from the others'. */
  lemma FencesAdd(region: set<Point>, plots: set<Point>, p: Point)
    requires p !in plots
    ensures Fences(region, plots + {p}) == Fences(region, plots) + FencesOn(region, p, Dirs)
    ensures Fences(region, plots) !! FencesOn(region, p, Dirs)
  {
  }

  /** The perimeter of `calculate_fencing`: for each plot, the number of
      sides facing out of the region, summed. It is the number of fence
      segments. */
  method Perimeter(region: set<Point>) returns (perimeter: nat)
    ensures perimeter == |Fences(region, region)|
    ensures perimeter <= 4 * |region|
  {
    perimeter := 0;
    var todo := region;
    ghost var done: set<Point> := {};
    while todo != {}
      invariant todo + done == region && todo !! done
      invariant perimeter == |Fences(region, done)| <= 4 * |done|
      decreases |todo|
    {
      var p :| p in todo;
      FencesAdd(region, done, p);
      PlotFences(region, p);
      perimeter := perimeter + SidesOut(region, p, Dirs);
      todo := todo - {p};
      done := done + {p};
    }
  }

  /** `calculate_fencing`: area times perimeter. */
  method Fencing(region: set<Point>) returns (price: nat)
    ensures price == |region| * |Fences(region, region)|
  {
    var perimeter := Perimeter(region);
    price := perimeter * |region|;
  }

  /** `calculate_fencing_bulk` as written: `sides` is never incremented, so
      the price is 0 for every region. The Rust code unwraps the minimum
      coordinate, so the region must be non-empty. */
  function FencingBulk(region: set<Point>): (price: nat)
    requires region != {}
    ensures price == 0
  {
    var sides := 0;
    |region| * sides
  }

  // ---------------------------------------------------------------------
  // The bulk price as intended: area times the number of sides.

  /** The direction along a fence facing `d`: for a unit step, swapping the
      coordinates gives a step at right angles to it. */
  function Along(d: Point): Point
  {
    Point(d.y, d.x)
  }

  /** The fence of `p` facing `d` starts a side: the next plot along the
      fence does not carry a fence facing the same way. Every straight run
      of fence has exactly one such end. */
  predicate StartsSide(region: set<Point>, p: Point, d: Point)
  {
    Add(p, d) !in region
    && !(Add(p, Along(d)) in region && Add(Add(p, Along(d)), d) !in region)
  }

  /** The fence segments of `plots` that start a side. */
  ghost function SideStarts(region: set<Point>, plots: set<Point>): set<(Point, Point)>
  {
    set p, d | p in plots && d in Dirs && StartsSide(region, p, d) :: (p, d)
  }

  /** The sides of `p`, among `ds`, whose fence starts a side. */
  function StartsOut(region: set<Point>, p: Point, ds: seq<Point>): (r: nat)
    ensures r <= SidesOut(region, p, ds)
  {
    if |ds| == 0 then 0
    else (if StartsSide(region, p, ds[0]) then 1 else 0) + StartsOut(region, p, ds[1..])
  }

  /** The side starts of `p` on the sides `ds`. */
  ghost function StartsOn(region: set<Point>, p: Point, ds: seq<Point>): set<(Point, Point)>
  {
    set d | d in ds && StartsSide(region, p, d) :: (p, d)
  }

  lemma {:induction false} StartsOutCount(region: set<Point>, p: Point, ds: seq<Point>)
    requires forall i, j :: 0 <= i < j < |ds| ==> ds[i] != ds[j]
    ensures |StartsOn(region, p, ds)| == StartsOut(region, p, ds)
    decreases |ds|
  {
    if |ds| > 0 {
      StartsOutCount(region, p, ds[1..]);
      var rest := StartsOn(region, p, ds[1..]);
      assert (p, ds[0]) !in rest by {
        forall i | 0 <= i < |ds[1..]| ensures ds[1..][i] != ds[0] {
          assert ds[1..][i] == ds[i + 1];
        }
      }
      if StartsSide(region, p, ds[0]) {
        assert StartsOn(region, p, ds) == rest + {(p, ds[0])};
      } else {
        assert StartsOn(region, p, ds) == rest;
      }
    }
  }

  /** Each plot starts between 0 and 4 sides. */
  lemma PlotStarts(region: set<Point>, p: Point)
    ensures |StartsOn(region, p, Dirs)| == StartsOut(region, p, Dirs) <= 4
  {
    StartsOutCount(region, p, Dirs);
    PlotFences(region, p);
  }

  /** Adding a plot adds its own side starts, disjoint from the others'. */
  lemma StartsAdd(region: set<Point>, plots: set<Point>, p: Point)
    requires p !in plots
    ensures SideStarts(region, plots + {p}) == SideStarts(region, plots) + StartsOn(region, p, Dirs)
    ensures SideStarts(region, plots) !! StartsOn(region, p, Dirs)
  {
  }

  /** A side start is a fence segment, so a region has no more sides than
      fence segments. */
  lemma SidesAtMostFences(region: set<Point>, plots: set<Point>)
    ensures SideStarts(region, plots) <= Fences(region, plots)
    ensures |SideStarts(region, plots)| <= |Fences(region, plots)|
  {
    var s, f := SideStarts(region, plots), Fences(region, plots);
    assert f == s + (f - s) && s !! (f - s);
  }

  /** `calculate_fencing_bulk` with its loops completed: the area times the
      number of sides, counted as the fence segments that start a side. It
      never exceeds the price of `calculate_fencing`. */
  method FencingBulkBySides(region: set<Point>) returns (price: nat)
    ensures price == |region| * |SideStarts(region, region)|
    ensures price <= |region| * |Fences(region, region)|
  {
    var sides := CountSides(region);
    SidesAtMostFences(region, region);
    price := |region| * sides;
    MulMonotone(|region|, sides, |Fences(region, region)|);
  }

  /** The loop counting the straight sides: each plot adds the sides that
      start at it, so the count is the number of side starts. */
  method CountSides(region: set<Point>) returns (sides: nat)
    ensures sides == |SideStarts(region, region)|
    ensures sides <= 4 * |region|
  {
    sides := 0;
    var todo := region;
    ghost var done: set<Point> := {};
    while todo != {}
      invariant todo + done == region && todo !! done
      invariant sides == |SideStarts(region, done)| <= 4 * |done|
      decreases |todo|
    {
      var p :| p in todo;
      StartsAdd(region, done, p);
      PlotStarts(region, p);
      sides := sides + StartsOut(region, p, Dirs);
      todo := todo - {p};
      done := done + {p};
    }
  }

  lemma MulMonotone(a: nat, b: nat, c: nat)
    requires b <= c
    ensures a * b <= a * c
  {
  }

  /** How far `q` lies along the unit step `a`: the coordinate that grows
      by one with every step by `a`. */
  function Progress(q: Point, a: Point): int
  {
    if a.x > 0 then q.x else if a.x < 0 then -q.x else if a.y > 0 then q.y else -q.y
  }

  /** The plots of the region strictly ahead of `p` along `a`. */
  function Ahead(region: set<Point>, p: Point, a: Point): set<Point>
  {
    set q | q in region && Progress(q, a) > Progress(p, a)
  }

  /** `k` steps by `a` from `p`. */
  function Steps(p: Point, a: Point, k: nat): Point
    decreases k
  {
    if k == 0 then p else Steps(Add(p, a), a, k - 1)
  }

  /** Following a fence along its side from any of its segments reaches a
      segment that starts a side, so every fence segment lies on a side
      that the count of side starts includes. */
  lemma {:induction false} RunHasStart(region: set<Point>, p: Point, d: Point) returns (k: nat)
    requires d in Dirs && p in region && Add(p, d) !in region
    ensures Steps(p, Along(d), k) in region && StartsSide(region, Steps(p, Along(d), k), d)
    decreases |Ahead(region, p, Along(d))|
  {
    var a := Along(d);
    if StartsSide(region, p, d) {
      return 0;
    }
    var next := Add(p, a);
    assert Progress(next, a) == Progress(p, a) + 1;
    var before, after := Ahead(region, p, a), Ahead(region, next, a);
    assert next in before && after <= before - {next};
    assert |after| < |before| by {
      var rest := before - {next} - after;
      assert before - {next} == after + rest && after !! rest;
    }
    var j := RunHasStart(region, next, d);
    k := j + 1;
  }

  /** A single plot is fenced by four sides, so its intended bulk price is
      4; the code as written charges 0. */
  lemma BulkSinglePlot(p: Point)
    ensures FencingBulk({p}) == 0
    ensures |SideStarts({p}, {p})| == 4
  {
    var ss := SideStarts({p}, {p});
    assert ss == {(p, Dirs[0]), (p, Dirs[1]), (p, Dirs[2]), (p, Dirs[3])} by {
      forall d | d in Dirs ensures StartsSide({p}, p, d) {
        assert Add(p, d) != p;
      }
    }
  }

  // ---------------------------------------------------------------------
  // The region loop of `solve`.

  /** The regions found so far: each is the region of its seed, and they
      are pairwise disjoint. */
  ghost predicate RegionsOk(g: Garden, regions: seq<set<Point>>, seeds: seq<Point>)
    requires Rectangular(g)
  {
    && |regions| == |seeds|
    && (forall i :: 0 <= i < |seeds| ==> OnMap(g, seeds[i]))
    && (forall i, p :: 0 <= i < |regions| ==> (p in regions[i] <==> Connected(g, seeds[i], p)))
    && (forall i, p, q :: 0 <= i < |regions| && p in regions[i] && Neighbours(g, p, q) ==> q in regions[i])
    && (forall i, j :: 0 <= i < j < |regions| ==> regions[i] !! regions[j])
  }

  /** A plot in no region so far has a region disjoint from all of them. */
  lemma NewRegionDisjoint(g: Garden, regions: seq<set<Point>>, seeds: seq<Point>, p: Point, region: set<Point>)
    requires Rectangular(g) && RegionsOk(g, regions, seeds)
    requires forall i :: 0 <= i < |regions| ==> p !in regions[i]
    requires forall q :: q in region <==> Connected(g, p, q)
    ensures forall i :: 0 <= i < |regions| ==> regions[i] !! region
  {
    forall i, q | 0 <= i < |regions| && q in regions[i] && q in region ensures false {
      var w :| IsWalk(g, w) && w[0] == p && w[|w| - 1] == q;
      var back := WalkReverse(g, w);
      ClosedHoldsWalk(g, regions[i], back);
    }
  }

  /** Some region found so far holds `p`. */
  predicate Covered(regions: seq<set<Point>>, p: Point)
  {
    exists i :: 0 <= i < |regions| && p in regions[i]
  }

  lemma CoveredGrows(regions: seq<set<Point>>, more: seq<set<Point>>, p: Point)
    requires Covered(regions, p)
    ensures Covered(regions + more, p)
  {
    var i :| 0 <= i < |regions| && p in regions[i];
    assert (regions + more)[i] == regions[i];
  }

  /** One point of the loop: a point no region holds yet seeds a new one. */
  method Visit(g: Garden, regions0: seq<set<Point>>, seeds0: seq<Point>, p: Point)
    returns (regions: seq<set<Point>>, seeds: seq<Point>)
    requires Rectangular(g) && OnMap(g, p) && RegionsOk(g, regions0, seeds0)
    ensures RegionsOk(g, regions, seeds) && Covered(regions, p)
    ensures forall q :: Covered(regions0, q) ==> Covered(regions, q)
  {
    if Covered(regions0, p) {
      return regions0, seeds0;
    }
    var region := FindRegion(g, p);
    NewRegionDisjoint(g, regions0, seeds0, p, region);
    regions, seeds := regions0 + [region], seeds0 + [p];
    assert regions[|regions0|] == region;
    forall q | Covered(regions0, q) ensures Covered(regions, q) {
      CoveredGrows(regions0, [region], q);
    }
  }

  /** The region loop of `solve`: the points in row-major order, each
      starting a new region unless an earlier region holds it. The regions
      partition the map: every plot lies in exactly one, and each is the
      region of its seed. */
  method Regions(g: Garden) returns (regions: seq<set<Point>>, seeds: seq<Point>)
    requires Rectangular(g)
    ensures RegionsOk(g, regions, seeds)
    ensures forall p :: OnMap(g, p) ==> Covered(regions, p)
  {
    regions, seeds := [], [];
    var y := 0;
    while y < Height(g)
      invariant y <= Height(g) && RegionsOk(g, regions, seeds)
      invariant forall p :: OnMap(g, p) && p.y < y ==> Covered(regions, p)
    {
      var x := 0;
      while x < Width(g)
        invariant x <= Width(g) && RegionsOk(g, regions, seeds)
        invariant forall p :: OnMap(g, p) && (p.y < y || (p.y == y && p.x < x)) ==> Covered(regions, p)
      {
        regions, seeds := Visit(g, regions, seeds, Point(x, y));
        x := x + 1;
      }
      y := y + 1;
    }
  }
}
