/** Day 18: bytes fall onto a 71 x 71 memory grid and corrupt the cells they
    hit. A breadth-first search finds the fewest orthogonal steps from the
    top-left corner (0,0) to the exit (70,70) through cells that are not
    corrupted; part two looks for the first byte after which the exit can no
    longer be reached. */
module RamRun {
  import opened Wrappers
  import opened Geometry
  import opened Grids

  /** `max_x` and `max_y`. */
  const Max: int := 70
  const Start: Point := Point(0, 0)
  const End: Point := Point(Max, Max)

  /** `is_accessible`: inside the square 0..70 on both axes and not
      corrupted. */
  predicate Accessible(corrupted: set<Point>, p: Point)
  {
    0 <= p.x <= Max && 0 <= p.y <= Max && p !in corrupted
  }

  /** Every point of the square (the start included). */
  ghost function Area(): (r: set<Point>)
    ensures forall p :: p in r <==> 0 <= p.x <= Max && 0 <= p.y <= Max
  {
    set x: int, y: int | 0 <= x <= Max && 0 <= y <= Max :: Point(x, y)
  }

  /** One move of the search: to an accessible orthogonal neighbour. */
  predicate Move(corrupted: set<Point>, p: Point, q: Point)
  {
    Accessible(corrupted, q) && IsUnit(Minus(q, p))
  }

  /** A path from the start; its length is the number of moves,
      `|t| - 1`. The start itself is never tested for corruption. */
  predicate IsPath(corrupted: set<Point>, t: seq<Point>)
  {
    && |t| > 0 && t[0] == Start
    && (forall i :: 0 <= i < |t| - 1 ==> Move(corrupted, t[i], t[i + 1]))
  }

  ghost predicate Reachable(corrupted: set<Point>, p: Point)
  {
    exists t :: IsPath(corrupted, t) && t[|t| - 1] == p
  }

  /** `n` is the length of a shortest path from the start to `p`. */
  ghost predicate Shortest(corrupted: set<Point>, p: Point, n: nat)
  {
    && (exists t :: IsPath(corrupted, t) && t[|t| - 1] == p && |t| == n + 1)
    && (forall t :: IsPath(corrupted, t) && t[|t| - 1] == p ==> n < |t|)
  }

  lemma PathExtend(corrupted: set<Point>, t: seq<Point>, q: Point)
    requires IsPath(corrupted, t) && Move(corrupted, t[|t| - 1], q)
    ensures IsPath(corrupted, t + [q])
  {
    var u := t + [q];
    forall i | 0 <= i < |u| - 1
      ensures Move(corrupted, u[i], u[i + 1])
    {
      if i < |t| - 1 {
        assert u[i] == t[i] && u[i + 1] == t[i + 1];
      }
    }
  }

  lemma PathPrefix(corrupted: set<Point>, t: seq<Point>, j: nat)
    requires IsPath(corrupted, t) && 0 < j <= |t|
    ensures IsPath(corrupted, t[..j])
  {
    var u := t[..j];
    forall i | 0 <= i < |u| - 1
      ensures Move(corrupted, u[i], u[i + 1])
    {
      assert Move(corrupted, t[i], t[i + 1]);
    }
  }

  /** Corrupting more cells only removes paths: a path avoiding the larger
      set avoids the smaller one. So once the exit is cut off it stays cut
      off, which is what the scan of part two relies on. */
  lemma ReachableAntitone(fewer: set<Point>, more: set<Point>, p: Point)
    requires fewer <= more && Reachable(more, p)
    ensures Reachable(fewer, p)
  {
    var t :| IsPath(more, t) && t[|t| - 1] == p;
    forall i | 0 <= i < |t| - 1 ensures Move(fewer, t[i], t[i + 1]) {
      assert Move(more, t[i], t[i + 1]);
    }
    assert IsPath(fewer, t);
  }

  /** A path that starts inside `s` and ends outside it leaves `s` at some
      step `j - 1` to `j`. */
  lemma {:induction false} FirstExit(t: seq<Point>, s: seq<Point>) returns (j: nat)
    requires |t| > 0 && t[0] in s && t[|t| - 1] !in s
    ensures 0 < j < |t| && t[j - 1] in s && t[j] !in s
    decreases |t|
  {
    if t[|t| - 2] in s {
      j := |t| - 1;
    } else {
      j := FirstExit(t[..|t| - 1], s);
    }
  }

  // ---------------------------------------------------------------------
  // The breadth-first search of `do_solve`.

  /** A queue entry: a point and the number of moves that reached it. */
  datatype Entry = Entry(point: Point, distance: nat)

  /** The moves from `p` along the offsets `ds` whose target is accessible
      and not yet seen, in order. */
  function MovesAlong(corrupted: set<Point>, p: Point, ds: seq<Point>, seen: set<Point>): (r: seq<Point>)
    requires forall i, j :: 0 <= i < j < |ds| ==> ds[i] != ds[j]
    ensures forall k :: 0 <= k < |r| ==> Minus(r[k], p) in ds && Accessible(corrupted, r[k]) && r[k] !in seen
    ensures forall d :: d in ds && Accessible(corrupted, Add(p, d)) && Add(p, d) !in seen ==> Add(p, d) in r
    ensures forall i, j :: 0 <= i < j < |r| ==> r[i] != r[j]
  {
    if |ds| == 0 then []
    else
      var q := Add(p, ds[0]);
      assert Minus(q, p) == ds[0];
      var rest := MovesAlong(corrupted, p, ds[1..], seen);
      forall k | 0 <= k < |rest| ensures rest[k] != q {
        assert Minus(rest[k], p) in ds[1..];
      }
      (if Accessible(corrupted, q) && q !in seen then [q] else []) + rest
  }

  /** `new_points`: the unseen accessible neighbours of `p`, each once, in
      the order of `Dirs`. */
  function NewPoints(corrupted: set<Point>, p: Point, seen: set<Point>): (r: seq<Point>)
    ensures forall q :: q in r <==> Move(corrupted, p, q) && q !in seen
    ensures Distinct(r)
  {
    var r := MovesAlong(corrupted, p, Dirs, seen);
    forall q | Move(corrupted, p, q) && q !in seen ensures q in r {
      DirsAreUnits(Minus(q, p));
      assert q == Add(p, Minus(q, p));
    }
    forall q | q in r ensures Move(corrupted, p, q) {
      DirsAreUnits(Minus(q, p));
    }
    r
  }

  /** The queue entries for newly reached points, all at distance `d`. */
  function Entries(points: seq<Point>, d: nat): (r: seq<Entry>)
    ensures |r| == |points|
    ensures forall k :: 0 <= k < |r| ==> r[k] == Entry(points[k], d)
  {
    seq(|points|, k requires 0 <= k < |points| => Entry(points[k], d))
  }

  /** No point occurs twice. */
  predicate Distinct(s: seq<Point>)
  {
    forall i, j :: 0 <= i < j < |s| ==> s[i] != s[j]
  }

  /** The bookkeeping of the search. `order` lists every point ever
      enqueued, in order; the first `|order| - |queue|` of them have been
      popped and the rest are the queue. No point is enqueued twice; `seen`
      holds every enqueued point, except the start until it is popped. */
  ghost predicate Layout(seen: set<Point>, queue: seq<Entry>, order: seq<Point>)
  {
    && |queue| <= |order| && |order| > 0 && order[0] == Start
    && (forall i :: 0 <= i < |queue| ==> queue[i].point == order[|order| - |queue| + i])
    && Distinct(order)
    && (forall p :: p in seen ==> p in order)
    && (forall k :: 1 <= k < |order| ==> order[k] in seen)
    && (|queue| < |order| ==> Start in seen)
    && (forall k :: 0 <= k < |order| ==> order[k] in Area())
  }

  /** The queue is ordered by distance and spans at most two consecutive
      distances. */
  predicate Layered(queue: seq<Entry>)
  {
    && (forall i, j :: 0 <= i < j < |queue| ==> queue[i].distance <= queue[j].distance)
    && (|queue| > 0 ==> queue[|queue| - 1].distance <= queue[0].distance + 1)
  }

  /** Each queued distance is a shortest-path length. */
  ghost predicate QueueShortest(corrupted: set<Point>, queue: seq<Entry>)
  {
    forall i :: 0 <= i < |queue| ==> Shortest(corrupted, queue[i].point, queue[i].distance)
  }

  /** Every move from a popped point reaches an enqueued point, and the
      exit has not been popped. */
  ghost predicate PoppedClosed(corrupted: set<Point>, queue: seq<Entry>, order: seq<Point>)
  {
    && (forall k, q :: 0 <= k < |order| - |queue| && Move(corrupted, order[k], q) ==> q in order)
    && (forall k :: 0 <= k < |order| - |queue| ==> order[k] != End)
  }

  /** What the search knows between passes of its loop. */
  ghost predicate SearchInvariant(corrupted: set<Point>, seen: set<Point>, queue: seq<Entry>, order: seq<Point>)
  {
    Layout(seen, queue, order) && Layered(queue) && QueueShortest(corrupted, queue) && PoppedClosed(corrupted, queue, order)
  }

  /** Every path to a point never enqueued is longer than the distance at
      the front of the queue: it must leave the enqueued points through a
      queued point, which it cannot reach in fewer moves than that point's
      distance. */
  lemma BeyondFront(corrupted: set<Point>, seen: set<Point>, queue: seq<Entry>, order: seq<Point>, t: seq<Point>)
    requires SearchInvariant(corrupted, seen, queue, order) && |queue| > 0
    requires IsPath(corrupted, t) && t[|t| - 1] !in order
    ensures queue[0].distance + 1 < |t|
  {
    var j := FirstExit(t, order);
    var k :| 0 <= k < |order| && order[k] == t[j - 1];
    assert Move(corrupted, t[j - 1], t[j]);
    var done := |order| - |queue|;
    assert k >= done;
    var e := queue[k - done];
    assert e.point == t[j - 1];
    PathPrefix(corrupted, t, j);
    assert t[..j][j - 1] == t[j - 1];
    assert Shortest(corrupted, e.point, e.distance);
    assert e.distance < j;
  }

  /** A set of points that holds the start and is closed under moves holds
      the end of every path. */
  lemma {:induction false} ClosedHolds(corrupted: set<Point>, s: seq<Point>, t: seq<Point>)
    requires Start in s && forall k, q :: 0 <= k < |s| && Move(corrupted, s[k], q) ==> q in s
    requires IsPath(corrupted, t)
    ensures t[|t| - 1] in s
    decreases |t|
  {
    if |t| > 1 {
      PathPrefix(corrupted, t, |t| - 1);
      ClosedHolds(corrupted, s, t[..|t| - 1]);
      var k :| 0 <= k < |s| && s[k] == t[|t| - 2];
      assert Move(corrupted, t[|t| - 2], t[|t| - 1]);
    }
  }

  /** With the whole queue popped, the enqueued points are closed under
      moves and hold the start, so they hold every reachable point; the
      exit is not among them. */
  lemma DrainedUnreachable(corrupted: set<Point>, seen: set<Point>, order: seq<Point>)
    requires SearchInvariant(corrupted, seen, [], order)
    ensures !Reachable(corrupted, End)
  {
    forall t | IsPath(corrupted, t) ensures t[|t| - 1] != End {
      ClosedHolds(corrupted, order, t);
    }
  }

  /** The newly enqueued points were never enqueued before: once the
      popped point is marked, `seen` covers every enqueued point. */
  lemma NextFresh(seen0: set<Point>, queue0: seq<Entry>, order0: seq<Point>, next: seq<Point>)
    requires Layout(seen0, queue0, order0) && |queue0| > 0
    requires forall q :: q in next ==> q !in seen0 + {queue0[0].point}
    ensures forall q :: q in next ==> q !in order0
  {
    var seen := seen0 + {queue0[0].point};
    assert Start in seen by {
      if |order0| - |queue0| == 0 {
        assert queue0[0].point == order0[0];
      }
    }
    forall q | q in next ensures q !in order0 {
      forall k | 0 <= k < |order0| ensures order0[k] != q {
        assert k == 0 || order0[k] in seen;
      }
    }
  }

  lemma ExpandLayout(seen0: set<Point>, queue0: seq<Entry>, order0: seq<Point>, next: seq<Point>, added: set<Point>,
                     seen: set<Point>, queue: seq<Entry>, order: seq<Point>, d: nat)
    requires Layout(seen0, queue0, order0) && |queue0| > 0
    requires forall q :: q in added <==> q in next
    requires forall q :: q in next ==> q !in seen0 + {queue0[0].point} && q in Area()
    requires Distinct(next)
    requires seen == seen0 + {queue0[0].point} + added
    requires queue == queue0[1..] + Entries(next, d) && order == order0 + next
    ensures Layout(seen, queue, order)
  {
    NextFresh(seen0, queue0, order0, next);
    assert Distinct(order) by {
      forall i, j | 0 <= i < j < |order| ensures order[i] != order[j] {
        if j >= |order0| && i < |order0| {
          assert order[j] in next;
          assert order[i] in order0;
        } else if j >= |order0| {
          assert order[i] == next[i - |order0|] && order[j] == next[j - |order0|];
        }
      }
    }
    forall i | 0 <= i < |queue| ensures queue[i].point == order[|order| - |queue| + i] {
      if i < |queue0| - 1 {
        assert queue[i] == queue0[i + 1];
      }
    }
    forall k | 0 <= k < |order| ensures order[k] in Area() {
      if k >= |order0| {
        assert order[k] in next;
      }
    }
    forall p | p in seen ensures p in order {
      if p == queue0[0].point {
        assert order0[|order0| - |queue0|] == p;
      }
    }
    forall k | 1 <= k < |order| ensures order[k] in seen {
      if k >= |order0| {
        assert order[k] in next;
      }
    }
  }

  lemma ExpandLayered(queue0: seq<Entry>, extra: seq<Entry>, queue: seq<Entry>)
    requires Layered(queue0) && |queue0| > 0
    requires forall i :: 0 <= i < |extra| ==> extra[i].distance == queue0[0].distance + 1
    requires queue == queue0[1..] + extra
    ensures Layered(queue)
  {
    var d := queue0[0].distance;
    forall i | 0 <= i < |queue| ensures d <= queue[i].distance <= d + 1 {
      if i < |queue0| - 1 {
        assert queue[i] == queue0[i + 1];
      }
    }
    forall i, j | 0 <= i < j < |queue| ensures queue[i].distance <= queue[j].distance {
      if j < |queue0| - 1 {
        assert queue[i] == queue0[i + 1] && queue[j] == queue0[j + 1];
      }
    }
    if |queue| > 0 && |queue0| > 1 {
      assert queue[0] == queue0[1];
    }
  }

  /** A point one move beyond the front of the queue that was never
      enqueued is reached in exactly one move more than the front: one move
      extends a shortest path to the front, and no path to a never-enqueued
      point is shorter. */
  lemma NextShortest(corrupted: set<Point>, front: Entry, q: Point)
    requires Shortest(corrupted, front.point, front.distance) && Move(corrupted, front.point, q)
    requires forall u :: IsPath(corrupted, u) && u[|u| - 1] == q ==> front.distance + 1 < |u|
    ensures Shortest(corrupted, q, front.distance + 1)
  {
    var d := front.distance;
    var t :| IsPath(corrupted, t) && t[|t| - 1] == front.point && |t| == d + 1;
    PathExtend(corrupted, t, q);
    var w := t + [q];
    assert IsPath(corrupted, w) && w[|w| - 1] == q && |w| == d + 2;
  }

  lemma NoShorterBeyond(corrupted: set<Point>, seen0: set<Point>, queue0: seq<Entry>, order0: seq<Point>, q: Point)
    requires SearchInvariant(corrupted, seen0, queue0, order0) && |queue0| > 0
    requires q !in order0
    ensures forall u :: IsPath(corrupted, u) && u[|u| - 1] == q ==> queue0[0].distance + 1 < |u|
  {
    forall u | IsPath(corrupted, u) && u[|u| - 1] == q ensures queue0[0].distance + 1 < |u| {
      BeyondFront(corrupted, seen0, queue0, order0, u);
    }
  }

  lemma ExpandShortest(corrupted: set<Point>, seen0: set<Point>, queue0: seq<Entry>, order0: seq<Point>, next: seq<Point>,
                       extra: seq<Entry>, queue: seq<Entry>)
    requires SearchInvariant(corrupted, seen0, queue0, order0) && |queue0| > 0
    requires forall q :: q in next ==> Move(corrupted, queue0[0].point, q) && q !in order0
    requires extra == Entries(next, queue0[0].distance + 1) && queue == queue0[1..] + extra
    ensures QueueShortest(corrupted, queue)
  {
    forall i | 0 <= i < |extra| ensures Shortest(corrupted, extra[i].point, extra[i].distance) {
      assert next[i] in next;
      NoShorterBeyond(corrupted, seen0, queue0, order0, next[i]);
      NextShortest(corrupted, queue0[0], next[i]);
    }
    forall i | 0 <= i < |queue| ensures Shortest(corrupted, queue[i].point, queue[i].distance) {
      if i < |queue0| - 1 {
        assert queue[i] == queue0[i + 1];
      } else {
        assert queue[i] == extra[i - (|queue0| - 1)];
      }
    }
  }

  /** Popping a point whose moves all lead to `seen` or to `next` keeps the
      popped points closed under moves. */
  lemma ExpandClosed(corrupted: set<Point>, seen0: set<Point>, queue0: seq<Entry>, order0: seq<Point>, next: seq<Point>,
                     extra: seq<Entry>, queue: seq<Entry>, order: seq<Point>)
    requires SearchInvariant(corrupted, seen0, queue0, order0) && |queue0| > 0 && queue0[0].point != End
    requires forall q :: Move(corrupted, queue0[0].point, q) ==> q in seen0 + {queue0[0].point} || q in next
    requires |extra| == |next| && queue == queue0[1..] + extra && order == order0 + next
    ensures PoppedClosed(corrupted, queue, order)
  {
    var done := |order0| - |queue0|;
    assert order[done] == queue0[0].point;
    forall k, q | 0 <= k < |order| - |queue| && Move(corrupted, order[k], q) ensures q in order {
      assert order[k] == order0[k];
      if k < done {
        assert q in order0;
      } else if q !in next {
        assert q in seen0 + {queue0[0].point};
        assert queue0[0].point == order0[done];
      }
    }
    forall k | 0 <= k < |order| - |queue| ensures order[k] != End {
      assert order[k] == order0[k];
    }
  }

  /** Popping the front and enqueueing fresh points keeps the
      bookkeeping and the layering of the queue. */
  lemma KeepsLayout(seen0: set<Point>, queue0: seq<Entry>, order0: seq<Point>, next: seq<Point>,
                    added: set<Point>, extra: seq<Entry>, seen: set<Point>, queue: seq<Entry>, order: seq<Point>)
    requires Layout(seen0, queue0, order0) && Layered(queue0) && |queue0| > 0
    requires forall q :: q in next ==> q !in seen0 + {queue0[0].point} && q in Area()
    requires Distinct(next) && forall q :: q in added <==> q in next
    requires extra == Entries(next, queue0[0].distance + 1)
    requires seen == seen0 + {queue0[0].point} + added
    requires queue == queue0[1..] + extra && order == order0 + next
    ensures Layout(seen, queue, order) && Layered(queue)
  {
    NextFresh(seen0, queue0, order0, next);
    ExpandLayout(seen0, queue0, order0, next, added, seen, queue, order, queue0[0].distance + 1);
    ExpandLayered(queue0, extra, queue);
  }

  /** Popping the front and enqueueing its unseen accessible neighbours
      one move further keeps the queued distances shortest and the popped
      points closed. */
  lemma KeepsSearch(corrupted: set<Point>, seen0: set<Point>, queue0: seq<Entry>, order0: seq<Point>, next: seq<Point>,
                    extra: seq<Entry>, queue: seq<Entry>, order: seq<Point>)
    requires |queue0| > 0 && queue0[0].point != End
    requires SearchInvariant(corrupted, seen0, queue0, order0)
    requires forall q :: q in next <==> Move(corrupted, queue0[0].point, q) && q !in seen0 + {queue0[0].point}
    requires extra == Entries(next, queue0[0].distance + 1)
    requires queue == queue0[1..] + extra && order == order0 + next
    ensures QueueShortest(corrupted, queue) && PoppedClosed(corrupted, queue, order)
  {
    NextFresh(seen0, queue0, order0, next);
    ExpandShortest(corrupted, seen0, queue0, order0, next, extra, queue);
    ExpandClosed(corrupted, seen0, queue0, order0, next, extra, queue, order);
  }

  /** One pass of the loop for a popped point that is not the exit: mark
      it seen, and enqueue each unseen accessible neighbour one move
      further. */
  method Expand(corrupted: set<Point>, seen0: set<Point>, queue0: seq<Entry>, ghost order0: seq<Point>)
    returns (seen: set<Point>, queue: seq<Entry>, ghost order: seq<Point>)
    requires |queue0| > 0 && queue0[0].point != End
    requires SearchInvariant(corrupted, seen0, queue0, order0)
    ensures SearchInvariant(corrupted, seen, queue, order)
    ensures seen0 <= seen <= Area()
    ensures seen == seen0 ==> |queue| < |queue0|
  {
    var current := queue0[0];
    seen := seen0 + {current.point};
    var next := NewPoints(corrupted, current.point, seen);
    var added := set q | q in next;
    var extra := Entries(next, current.distance + 1);
    seen := seen + added;
    queue := queue0[1..] + extra;
    order := order0 + next;
    KeepsLayout(seen0, queue0, order0, next, added, extra, seen, queue, order);
    KeepsSearch(corrupted, seen0, queue0, order0, next, extra, queue, order);
    SeenInArea(seen, queue, order);
  }

  lemma SeenInArea(seen: set<Point>, queue: seq<Entry>, order: seq<Point>)
    requires Layout(seen, queue, order)
    ensures seen <= Area()
  {
    forall p | p in seen ensures p in Area() {
      var k :| 0 <= k < |order| && order[k] == p;
    }
  }

  /** `do_solve`: the length of a shortest path from the start to the exit
      through accessible cells, or `None` exactly when there is no such
      path. */
  method DoSolve(corrupted: set<Point>) returns (r: Option<nat>)
    ensures r.Some? ==> Shortest(corrupted, End, r.value)
    ensures r.None? <==> !Reachable(corrupted, End)
  {
    var queue := [Entry(Start, 0)];
    var seen: set<Point> := {};
    ghost var order := [Start];
    assert IsPath(corrupted, [Start]);
    while |queue| > 0
      invariant SearchInvariant(corrupted, seen, queue, order)
      invariant seen <= Area()
      decreases |Area() - seen|, |queue|
    {
      if queue[0].point == End {
        assert Shortest(corrupted, End, queue[0].distance);
        return Some(queue[0].distance);
      }
      var seen', queue';
      ghost var order';
      seen', queue', order' := Expand(corrupted, seen, queue, order);
      if seen' != seen {
        FewerLeft(Area(), seen, seen');
      }
      seen, queue, order := seen', queue', order';
    }
    DrainedUnreachable(corrupted, seen, order);
    return None;
  }

  // ---------------------------------------------------------------------
  // The two parts.

  /** The cells corrupted by the first `n` bytes (`take(n)`; all of them
      when there are fewer). */
  function Fallen(bytes: seq<Point>, n: nat): (r: set<Point>)
    ensures forall p :: p in r <==> exists i :: 0 <= i < |bytes| && i < n && bytes[i] == p
  {
    var m := if n < |bytes| then n else |bytes|;
    set i | 0 <= i < m :: bytes[i]
  }

  /** `solve1`: the search after 1024 bytes. */
  method Solve1(bytes: seq<Point>) returns (r: Option<nat>)
    ensures r.Some? ==> Shortest(Fallen(bytes, 1024), End, r.value)
    ensures r.None? <==> !Reachable(Fallen(bytes, 1024), End)
  {
    r := DoSolve(Fallen(bytes, 1024));
  }

  /** `solve2`: the byte `start - 1`, where `start` is the first prefix
      length from 1025 on that cuts off the exit. When no prefix within the
      byte list cuts it off, the Rust loop runs forever (or panics on the
      missing byte), and the model answers `None`. */
  method Solve2(bytes: seq<Point>) returns (r: Option<Point>)
    ensures r.Some? ==> exists s :: 1025 <= s <= |bytes| && r.value == bytes[s - 1]
                                 && !Reachable(Fallen(bytes, s), End)
                                 && forall s' :: 1025 <= s' < s ==> Reachable(Fallen(bytes, s'), End)
    ensures r.None? ==> forall s :: 1025 <= s <= |bytes| ==> Reachable(Fallen(bytes, s), End)
  {
    var start := 1025;
    while start <= |bytes|
      invariant 1025 <= start <= |bytes| + 1 || start == 1025
      invariant forall s' :: 1025 <= s' < start ==> Reachable(Fallen(bytes, s'), End)
    {
      var res := DoSolve(Fallen(bytes, start));
      if res.None? {
        return Some(bytes[start - 1]);
      }
      start := start + 1;
    }
    return None;
  }

  /** Once the exit is cut off, every longer prefix of the bytes cuts it
      off as well. */
  lemma CutOffStays(bytes: seq<Point>, s: nat, s': nat)
    requires s <= s' && !Reachable(Fallen(bytes, s), End)
    ensures !Reachable(Fallen(bytes, s'), End)
  {
    if Reachable(Fallen(bytes, s'), End) {
      ReachableAntitone(Fallen(bytes, s), Fallen(bytes, s'), End);
    }
  }
}
