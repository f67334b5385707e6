/** Day 10: hiking trails on a topographic map of heights 0..9. A trail
    starts at a trailhead and climbs exactly one unit of height per
    orthogonal step. The score of a trailhead is the number of 9-cells it
    reaches; its rating is the number of distinct trails it starts. */
module HoofIt {
  import opened Wrappers
  import opened Geometry
  import opened Grids

  type TopoMap = Grid<nat>

  function HeightAt(g: TopoMap, p: Point): nat
    requires Rectangular(g) && OnMap(g, p)
  {
    g[p.y][p.x]
  }

  /** One accepted trail step: to an on-map orthogonal neighbour exactly one
      unit higher. */
  predicate Climb(g: TopoMap, p: Point, q: Point)
    requires Rectangular(g)
  {
    OnMap(g, p) && OnMap(g, q) && IsUnit(Minus(q, p)) && HeightAt(g, q) == HeightAt(g, p) + 1
  }

  /** A trail: on-map points, each a climb from the one before. */
  predicate IsTrail(g: TopoMap, t: seq<Point>)
    requires Rectangular(g)
  {
    && |t| > 0
    && (forall i :: 0 <= i < |t| ==> OnMap(g, t[i]))
    && (forall i :: 0 <= i < |t| - 1 ==> Climb(g, t[i], t[i + 1]))
  }

  /** `p` is at the end of a trail from `s`. */
  ghost predicate Reaches(g: TopoMap, s: Point, p: Point)
    requires Rectangular(g)
  {
    exists t :: IsTrail(g, t) && t[0] == s && t[|t| - 1] == p
  }

  /** A trail extended by one more climb is a trail. */
  lemma TrailExtend(g: TopoMap, t: seq<Point>, q: Point)
    requires Rectangular(g) && IsTrail(g, t) && Climb(g, t[|t| - 1], q)
    ensures IsTrail(g, t + [q])
  {
    var u := t + [q];
    forall i | 0 <= i < |u| - 1
      ensures Climb(g, u[i], u[i + 1])
    {
      if i < |t| - 1 {
        assert u[i] == t[i] && u[i + 1] == t[i + 1];
      }
    }
  }

  lemma ReachesStep(g: TopoMap, s: Point, p: Point, q: Point)
    requires Rectangular(g) && Reaches(g, s, p) && Climb(g, p, q)
    ensures Reaches(g, s, q)
  {
    var t :| IsTrail(g, t) && t[0] == s && t[|t| - 1] == p;
    TrailExtend(g, t, q);
    assert (t + [q])[0] == s;
  }

  /** Along a trail the height rises by one per step; on a map of digits a
      trail therefore has at most ten points. */
  lemma {:induction false} TrailRises(g: TopoMap, t: seq<Point>, i: nat)
    requires Rectangular(g) && IsTrail(g, t) && i < |t|
    ensures OnMap(g, t[i]) && HeightAt(g, t[i]) == HeightAt(g, t[0]) + i
  {
    if i > 0 {
      TrailRises(g, t, i - 1);
      assert Climb(g, t[i - 1], t[i]);
    }
  }

  lemma TrailLength(g: TopoMap, t: seq<Point>)
    requires Rectangular(g) && IsTrail(g, t)
    requires forall p :: OnMap(g, p) ==> HeightAt(g, p) <= 9
    ensures |t| <= 10 - HeightAt(g, t[0])
  {
    TrailRises(g, t, |t| - 1);
  }

  /** A step from `p` to `q` that the Rust filter accepts: `q` is not yet
      visited, is on the map, and is exactly one unit higher. */
  predicate Accepted(g: TopoMap, p: Point, q: Point, seen: set<Point>)
    requires Rectangular(g) && OnMap(g, p)
  {
    q !in seen && OnMap(g, q) && HeightAt(g, q) == HeightAt(g, p) + 1
  }

  /** The accepted neighbours `p + d` for the offsets `ds`, in order. */
  function ClimbsAlong(g: TopoMap, p: Point, ds: seq<Point>, seen: set<Point>): (r: seq<Point>)
    requires Rectangular(g) && OnMap(g, p)
    ensures forall k :: 0 <= k < |r| ==> Minus(r[k], p) in ds && Accepted(g, p, r[k], seen)
    ensures forall d :: d in ds && Accepted(g, p, Add(p, d), seen) ==> Add(p, d) in r
  {
    if |ds| == 0 then []
    else
      var q := Add(p, ds[0]);
      assert Minus(q, p) == ds[0];
      (if Accepted(g, p, q, seen) then [q] else []) + ClimbsAlong(g, p, ds[1..], seen)
  }

  /** The unvisited climbs from `p`, in the order of `Dirs`. */
  function NewClimbs(g: TopoMap, p: Point, seen: set<Point>): (r: seq<Point>)
    requires Rectangular(g) && OnMap(g, p)
    ensures forall k :: 0 <= k < |r| ==> Climb(g, p, r[k]) && r[k] !in seen
    ensures forall q :: Climb(g, p, q) && q !in seen ==> q in r
  {
    var r := ClimbsAlong(g, p, Dirs, seen);
    forall q | Climb(g, p, q) && q !in seen ensures q in r {
      DirsAreUnits(Minus(q, p));
      assert q == Add(p, Minus(q, p));
    }
    forall k | 0 <= k < |r| ensures Climb(g, p, r[k]) {
      DirsAreUnits(Minus(r[k], p));
    }
    r
  }

  /** The BFS state of `calculate_trail_head_score_for_start`: everything
      visited or queued is reachable, the start is visited or queued, and
      every climb from a visited point is visited or queued. */
  ghost predicate ScoreInvariant(g: TopoMap, start: Point, visited: set<Point>, queue: seq<Point>)
    requires Rectangular(g)
  {
    && (forall p :: p in visited ==> OnMap(g, p) && Reaches(g, start, p))
    && (forall k :: 0 <= k < |queue| ==> OnMap(g, queue[k]) && Reaches(g, start, queue[k]))
    && (start in visited || start in queue)
    && (forall p, q :: p in visited && Climb(g, p, q) ==> q in visited || q in queue)
  }

  /** A set closed under climbs that holds the start holds the end of every
      trail from the start. */
  lemma {:induction false} ClosedHoldsTrail(g: TopoMap, start: Point, visited: set<Point>, t: seq<Point>)
    requires Rectangular(g) && start in visited
    requires forall p, q :: p in visited && Climb(g, p, q) ==> q in visited
    requires IsTrail(g, t) && t[0] == start
    ensures t[|t| - 1] in visited
    decreases |t|
  {
    if |t| > 1 {
      var prefix := t[..|t| - 1];
      assert IsTrail(g, prefix) by {
        forall i | 0 <= i < |prefix| - 1 ensures Climb(g, prefix[i], prefix[i + 1]) {
          assert Climb(g, t[i], t[i + 1]);
        }
      }
      ClosedHoldsTrail(g, start, visited, prefix);
      assert Climb(g, t[|t| - 2], t[|t| - 1]);
    }
  }

  /** The 9-cells that trails from `start` reach. */
  ghost function Peaks(g: TopoMap, start: Point): set<Point>
    requires Rectangular(g)
  {
    set p | p in Cells(g) && HeightAt(g, p) == 9 && Reaches(g, start, p)
  }

  /** One pass of the BFS loop: pop the front; if it is new, visit it and
      queue its unvisited climbs. */
  method ScoreStep(g: TopoMap, start: Point, visited0: set<Point>, queue0: seq<Point>)
    returns (visited: set<Point>, queue: seq<Point>)
    requires Rectangular(g) && |queue0| > 0 && ScoreInvariant(g, start, visited0, queue0)
    ensures ScoreInvariant(g, start, visited, queue)
    ensures visited0 <= visited <= Cells(g)
    ensures visited == visited0 ==> |queue| < |queue0|
  {
    var current := queue0[0];
    queue := queue0[1..];
    visited := visited0;
    if current in visited {
      forall p, q | p in visited && Climb(g, p, q) ensures q in visited || q in queue {
        if q !in visited {
          assert q in queue0;
        }
      }
      return;
    }
    visited := visited + {current};
    var next := NewClimbs(g, current, visited);
    forall k | 0 <= k < |next| ensures Reaches(g, start, next[k]) {
      ReachesStep(g, start, current, next[k]);
    }
    queue := queue + next;
    forall p, q | p in visited && Climb(g, p, q) ensures q in visited || q in queue {
      if q !in visited && p != current {
        assert q in queue0 && q != current;
      }
    }
  }

  /** `calculate_trail_head_score_for_start`: the visited set is exactly the
      set of points trails from `start` reach, and the score counts the
      9-cells among them. */
  method TrailScore(g: TopoMap, start: Point) returns (score: nat, visited: set<Point>)
    requires Rectangular(g) && OnMap(g, start)
    ensures forall p :: p in visited <==> Reaches(g, start, p)
    ensures score == |Peaks(g, start)|
  {
    visited := {};
    var queue := [start];
    assert IsTrail(g, [start]);
    while |queue| > 0
      invariant ScoreInvariant(g, start, visited, queue)
      invariant visited <= Cells(g)
      decreases |Cells(g) - visited|, |queue|
    {
      var visited', queue' := ScoreStep(g, start, visited, queue);
      if visited' != visited {
        FewerLeft(Cells(g), visited, visited');
      }
      visited, queue := visited', queue';
    }
    forall p | Reaches(g, start, p) ensures p in visited {
      var t :| IsTrail(g, t) && t[0] == start && t[|t| - 1] == p;
      ClosedHoldsTrail(g, start, visited, t);
    }
    score := |set p | p in visited && HeightAt(g, p) == 9|;
    assert (set p | p in visited && HeightAt(g, p) == 9) == Peaks(g, start);
  }

  // ---------------------------------------------------------------------
  // The rating: every distinct trail is recorded.

  /** `q` is one climb beyond the end of `t`. */
  predicate ExtendsTo(g: TopoMap, t: seq<Point>, q: Point)
    requires Rectangular(g)
  {
    |t| > 0 && Climb(g, t[|t| - 1], q)
  }

  /** A trail from `start` that ends on a 9. */
  predicate FullTrail(g: TopoMap, start: Point, t: seq<Point>)
    requires Rectangular(g)
  {
    IsTrail(g, t) && t[0] == start && HeightAt(g, t[|t| - 1]) == 9
  }

  /** The BFS state of `calculate_distinct_trail_head_score_for_start`:
      every recorded or queued path is a trail from `start`, the one-point
      trail is recorded or queued, and every one-climb extension of a
      recorded trail is recorded or queued. */
  ghost predicate RatingInvariant(g: TopoMap, start: Point, made: set<seq<Point>>, queue: seq<seq<Point>>)
    requires Rectangular(g)
  {
    && (forall t :: t in made ==> IsTrail(g, t) && t[0] == start)
    && (forall k :: 0 <= k < |queue| ==> IsTrail(g, queue[k]) && queue[k][0] == start)
    && ([start] in made || [start] in queue)
    && (forall t, q {:trigger ExtendsTo(g, t, q)} :: t in made && ExtendsTo(g, t, q) ==> t + [q] in made || t + [q] in queue)
  }

  /** `t + [q]` for each `q` of `climbs` with `t + [q]` not in `made`, in
      order. */
  function Extensions(t: seq<Point>, climbs: seq<Point>, made: set<seq<Point>>): (r: seq<seq<Point>>)
    ensures forall k :: 0 <= k < |r| ==> |r[k]| == |t| + 1 && r[k] !in made && r[k] == t + [r[k][|t|]] && r[k][|t|] in climbs
    ensures forall q :: q in climbs && t + [q] !in made ==> t + [q] in r
  {
    if |climbs| == 0 then []
    else
      var x := t + [climbs[0]];
      assert x[|t|] == climbs[0];
      (if x in made then [] else [x]) + Extensions(t, climbs[1..], made)
  }

  /** The unrecorded one-climb extensions of the trail `t`, in the order of
      `Dirs`. */
  function NewTrails(g: TopoMap, t: seq<Point>, made: set<seq<Point>>): (r: seq<seq<Point>>)
    requires Rectangular(g) && IsTrail(g, t)
    ensures forall k :: 0 <= k < |r| ==> IsTrail(g, r[k]) && r[k][0] == t[0] && r[k] !in made
    ensures forall q :: ExtendsTo(g, t, q) && t + [q] !in made ==> t + [q] in r
  {
    TrailRises(g, t, |t| - 1);
    var climbs := NewClimbs(g, t[|t| - 1], {});
    var r := Extensions(t, climbs, made);
    forall k | 0 <= k < |r| ensures IsTrail(g, r[k]) && r[k][0] == t[0] {
      TrailExtend(g, t, r[k][|t|]);
    }
    r
  }

  /** One pass of the path BFS: pop a path; if it is new, record it and
      queue its unrecorded extensions. */
  method RatingStep(g: TopoMap, start: Point, made0: set<seq<Point>>, queue0: seq<seq<Point>>)
    returns (made: set<seq<Point>>, queue: seq<seq<Point>>)
    requires Rectangular(g) && |queue0| > 0 && RatingInvariant(g, start, made0, queue0)
    ensures RatingInvariant(g, start, made, queue) && made0 <= made
    ensures made == made0 ==> |queue| < |queue0|
  {
    var current := queue0[0];
    queue := queue0[1..];
    made := made0;
    if current in made {
      forall t, q | t in made && ExtendsTo(g, t, q) ensures t + [q] in made || t + [q] in queue {
        if t + [q] !in made {
          assert t + [q] in queue0;
        }
      }
      return;
    }
    made := made + {current};
    var next := NewTrails(g, current, made);
    queue := queue + next;
    forall t, q | t in made && ExtendsTo(g, t, q) ensures t + [q] in made || t + [q] in queue {
      if t + [q] !in made && t != current {
        assert t + [q] in queue0 && t + [q] != current;
      }
    }
  }

  /** A set of trails closed under extension that holds the one-point trail
      holds every trail from `start`. */
  lemma {:induction false} ClosedHoldsAllTrails(g: TopoMap, start: Point, made: set<seq<Point>>, t: seq<Point>)
    requires Rectangular(g) && [start] in made
    requires forall u, q {:trigger ExtendsTo(g, u, q)} :: u in made && ExtendsTo(g, u, q) ==> u + [q] in made
    requires IsTrail(g, t) && t[0] == start
    ensures t in made
    decreases |t|
  {
    if |t| == 1 {
      assert t == [start];
    } else {
      var prefix := t[..|t| - 1];
      assert IsTrail(g, prefix) by {
        forall i | 0 <= i < |prefix| - 1 ensures Climb(g, prefix[i], prefix[i + 1]) {
          assert Climb(g, t[i], t[i + 1]);
        }
      }
      ClosedHoldsAllTrails(g, start, made, prefix);
      assert ExtendsTo(g, prefix, t[|t| - 1]) by {
        assert Climb(g, t[|t| - 2], t[|t| - 1]);
      }
      assert prefix + [t[|t| - 1]] == t;
    }
  }

  /** The heights `read_input` can produce: each cell is one decimal digit. */
  ghost predicate Digits(g: TopoMap)
    requires Rectangular(g)
  {
    forall p :: OnMap(g, p) ==> HeightAt(g, p) <= 9
  }

  /** The most points a trail on a map of digits can have. */
  const MaxTrail: nat := 10

  /** Every sequence of at most `n` points of `cells`. */
  ghost function Words(cells: set<Point>, n: nat): set<seq<Point>>
    decreases n
  {
    if n == 0 then {[]}
    else
      var shorter := Words(cells, n - 1);
      shorter + set t, p | t in shorter && p in cells :: t + [p]
  }

  lemma {:induction false} InWords(cells: set<Point>, n: nat, t: seq<Point>)
    requires |t| <= n && forall i :: 0 <= i < |t| ==> t[i] in cells
    ensures t in Words(cells, n)
    decreases n
  {
    if n > 0 {
      if |t| <= n - 1 {
        InWords(cells, n - 1, t);
      } else {
        var prefix := t[..|t| - 1];
        InWords(cells, n - 1, prefix);
        assert t == prefix + [t[|t| - 1]];
      }
    }
  }

  /** On a map of digits the trails lie in a finite set: the sequences of
      at most ten on-map points. */
  lemma TrailUniverse(g: TopoMap) returns (all: set<seq<Point>>)
    requires Rectangular(g) && Digits(g)
    ensures forall t :: IsTrail(g, t) ==> t in all
  {
    all := Words(Cells(g), MaxTrail);
    forall t | IsTrail(g, t) ensures t in all {
      TrailLength(g, t);
      InWords(Cells(g), MaxTrail, t);
    }
  }

  /** `calculate_distinct_trail_head_score_for_start`: once the queue drains,
      the recorded paths are exactly the trails from `start`, and the rating
      counts those ending on a 9. Each pass either records a new trail or
      shrinks the queue, and there are finitely many trails, so the loop
      ends. */
  method TrailRating(g: TopoMap, start: Point) returns (rating: nat, made: set<seq<Point>>)
    requires Rectangular(g) && Digits(g) && OnMap(g, start)
    ensures forall t :: t in made <==> IsTrail(g, t) && t[0] == start
    ensures rating == |set t | t in made && FullTrail(g, start, t)|
  {
    made := {};
    var queue := [[start]];
    ghost var all := TrailUniverse(g);
    while |queue| > 0
      invariant RatingInvariant(g, start, made, queue)
      invariant made <= all
      decreases |all - made|, |queue|
    {
      var made0, queue0 := made, queue;
      made, queue := RatingStep(g, start, made, queue);
      if made != made0 {
        FewerLeft(all, made0, made);
      }
    }
    forall t | IsTrail(g, t) && t[0] == start ensures t in made {
      ClosedHoldsAllTrails(g, start, made, t);
    }
    rating := |set t | t in made && FullTrail(g, start, t)|;
  }
}
