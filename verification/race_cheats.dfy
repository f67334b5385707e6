/** Day 20, second version of the cheat search: the shortest cheat-free
    length from every cell is computed first, then a search over the track
    records, for every state it pops, the cheats that start at a wall next
    to it and save at least `minimal_improvement`. */
module RaceCheats {
  import opened Wrappers
  import opened Geometry
  import opened Grids

  datatype Direction = North | South | East | West

  /** `Direction::to_dx_dy`: North is `(0, 1)`. */
  function ToDxDy(d: Direction): (r: Point)
    ensures IsUnit(r)
  {
    match d
    case North => Point(0, 1)
    case South => Point(0, -1)
    case East => Point(1, 0)
    case West => Point(-1, 0)
  }

  /** `Direction::others`, in the order the Rust code lists them. */
  function Others(d: Direction): (r: seq<Direction>)
  {
    match d
    case North => [East, South, West]
    case East => [North, South, West]
    case South => [North, East, West]
    case West => [North, East, South]
  }

  /** `others` lists each direction other than `d` exactly once. */
  lemma OthersExactly(d: Direction, e: Direction)
    ensures |Others(d)| == 3
    ensures e in Others(d) <==> e != d
    ensures forall i, j :: 0 <= i < j < 3 ==> Others(d)[i] != Others(d)[j]
  {
  }

  /** Being another direction is symmetric. */
  lemma OthersSymmetric(d: Direction, e: Direction)
    ensures e in Others(d) <==> d in Others(e)
  {
    OthersExactly(d, e);
    OthersExactly(e, d);
  }

  /** A search state: position, path length and Manhattan distance to the
      end (the heap pops the least distance first). */
  datatype State = State(position: Point, length: nat, distance: nat)

  /** A cell the search may enter: on the map and not a wall. */
  predicate Open(g: Grid<char>, p: Point)
    requires Rectangular(g)
  {
    OnMap(g, p) && CharAt(g, p) != Some('#')
  }

  /** `length < ubs.get(p).unwrap_or(usize::MAX)`. */
  predicate Improves(ubs: map<Point, nat>, p: Point, length: nat)
  {
    p !in ubs || length < ubs[p]
  }

  // ---------------------------------------------------------------------
  // Tracks: the walks a race may take without cheating

  function Last(path: seq<Point>): Point
    requires |path| > 0
  {
    path[|path| - 1]
  }

  /** Consecutive points are orthogonal neighbours. */
  predicate IsWalk(path: seq<Point>)
  {
    forall k :: 0 <= k < |path| - 1 ==> IsUnit(Minus(path[k + 1], path[k]))
  }

  /** A track from `start`: it begins on `start`, which is not a wall, and
      then takes unit steps onto open cells. Its length is its number of
      steps, `|t| - 1`. */
  predicate Track(g: Grid<char>, start: Point, t: seq<Point>)
    requires Rectangular(g)
  {
    && |t| >= 1 && t[0] == start && CharAt(g, start) != Some('#') && IsWalk(t)
    && forall k :: 1 <= k < |t| ==> Open(g, t[k])
  }

  /** Some track from `start` of length `n` ends on `p`. */
  ghost predicate Reaches(g: Grid<char>, start: Point, p: Point, n: nat)
    requires Rectangular(g)
  {
    exists t :: Track(g, start, t) && |t| == n + 1 && Last(t) == p
  }

  /** A track extends by a unit step onto an open cell. */
  lemma ReachesStep(g: Grid<char>, start: Point, p: Point, n: nat, q: Point)
    requires Rectangular(g) && Reaches(g, start, p, n)
    requires Open(g, q) && IsUnit(Minus(q, p))
    ensures Reaches(g, start, q, n + 1)
  {
    var t :| Track(g, start, t) && |t| == n + 1 && Last(t) == p;
    var u := t + [q];
    forall k | 0 <= k < |u| - 1 ensures IsUnit(Minus(u[k + 1], u[k])) {
      if k < |t| - 1 {
        assert u[k + 1] == t[k + 1] && u[k] == t[k];
      }
    }
    forall k | 1 <= k < |u| ensures Open(g, u[k]) {
      if k < |t| {
        assert u[k] == t[k];
      }
    }
    assert Track(g, start, u) && |u| == n + 2 && Last(u) == q;
  }

  /** Every unit step is the step of some direction. */
  lemma UnitDirection(u: Point) returns (d: Direction)
    requires IsUnit(u)
    ensures ToDxDy(d) == u
  {
    UnitCases(u);
    if u == Point(0, 1) {
      d := North;
    } else if u == Point(0, -1) {
      d := South;
    } else if u == Point(1, 0) {
      d := East;
    } else {
      d := West;
    }
  }

  // ---------------------------------------------------------------------
  // `solve_without_cheating`

  function StepTo(s: State, d: Direction, end: Point): State
  {
    var next := Add(s.position, ToDxDy(d));
    State(next, s.length + 1, Manhattan(next, end))
  }

  lemma EveryDirection(d: Direction)
    ensures d in [North, South, East, West]
  {
    match d
    case North =>
    case South => assert [North, South, East, West][1] == d;
    case East => assert [North, South, East, West][2] == d;
    case West => assert [North, South, East, West][3] == d;
  }

  /** One step of a state: one longer, one unit step away, carrying its
      Manhattan distance to the end. */
  predicate OneStep(s: State, end: Point, c: State)
  {
    c.length == s.length + 1 && IsUnit(Minus(c.position, s.position)) && c.distance == Manhattan(c.position, end)
  }

  lemma StepToIsOneStep(s: State, d: Direction, end: Point)
    ensures OneStep(s, end, StepTo(s, d, end))
  {
    assert Minus(StepTo(s, d, end).position, s.position) == ToDxDy(d);
  }

  /** The states for the directions `ds` that the filter keeps, in order. */
  function Kept(g: Grid<char>, s: State, end: Point, ds: seq<Direction>, ubs: map<Point, nat>): (r: seq<State>)
    requires Rectangular(g)
    ensures |r| <= |ds|
    ensures forall c :: c in r ==> Open(g, c.position) && Improves(ubs, c.position, c.length) && OneStep(s, end, c)
    ensures forall d :: d in ds ==>
              (StepTo(s, d, end) in r <==> Open(g, StepTo(s, d, end).position) && Improves(ubs, StepTo(s, d, end).position, s.length + 1))
  {
    if ds == [] then []
    else
      var c := StepTo(s, ds[0], end);
      StepToIsOneStep(s, ds[0], end);
      var rest := Kept(g, s, end, ds[1..], ubs);
      if Open(g, c.position) && Improves(ubs, c.position, c.length) then [c] + rest else rest
  }

  /** The successors of a popped state: the neighbours North, South, East
      and West that are open and strictly improve on their recorded length,
      each one step on. */
  function Successors(g: Grid<char>, s: State, end: Point, ubs: map<Point, nat>): (r: seq<State>)
    requires Rectangular(g)
    ensures |r| <= 4
    ensures forall c :: c in r ==> Open(g, c.position) && Improves(ubs, c.position, c.length) && OneStep(s, end, c)
    ensures forall d :: StepTo(s, d, end) in r <==>
              Open(g, Add(s.position, ToDxDy(d))) && Improves(ubs, Add(s.position, ToDxDy(d)), s.length + 1)
  {
    var ds := [North, South, East, West];
    var r := Kept(g, s, end, ds, ubs);
    forall d ensures d in ds {
      EveryDirection(d);
    }
    r
  }

  /** Two successors never share a cell. */
  lemma SuccessorsDistinct(g: Grid<char>, s: State, end: Point, ubs: map<Point, nat>, a: State, b: State)
    requires Rectangular(g) && a in Successors(g, s, end, ubs) && b in Successors(g, s, end, ubs)
    requires a.position == b.position
    ensures a == b
  {
  }

  /** The `for_each` that records each kept state's length under its cell. */
  function Record(ubs: map<Point, nat>, states: seq<State>): (r: map<Point, nat>)
    ensures forall p :: p in r <==> p in ubs || exists c :: c in states && c.position == p
    ensures forall p :: p in ubs && (forall c :: c in states ==> c.position != p) ==> r[p] == ubs[p]
    ensures forall c :: c in states && (forall c' :: c' in states && c'.position == c.position ==> c' == c) ==>
              r[c.position] == c.length
    decreases |states|
  {
    if states == [] then ubs
    else
      var rest := Record(ubs[states[0].position := states[0].length], states[1..]);
      assert forall c :: c in states <==> c == states[0] || c in states[1..];
      rest
  }

  /** Recording the successors lowers a cell's length, strictly where a
      successor stands. */
  lemma RecordLowers(g: Grid<char>, s: State, end: Point, ubs: map<Point, nat>, p: Point)
    requires Rectangular(g) && p in ubs
    ensures Record(ubs, Successors(g, s, end, ubs))[p] <= ubs[p]
    ensures (exists c :: c in Successors(g, s, end, ubs) && c.position == p) ==>
              Record(ubs, Successors(g, s, end, ubs))[p] < ubs[p]
  {
    var next := Successors(g, s, end, ubs);
    if c :| c in next && c.position == p {
      forall c' | c' in next && c'.position == c.position ensures c' == c {
        SuccessorsDistinct(g, s, end, ubs, c, c');
      }
    }
  }

  /** The state the binary heap pops: the least `distance` (the first one
      on ties). */
  function PopIndex(frontier: seq<State>): (i: nat)
    requires |frontier| > 0
    ensures i < |frontier|
    ensures forall j :: 0 <= j < |frontier| ==> frontier[i].distance <= frontier[j].distance
  {
    if |frontier| == 1 then 0
    else
      var i := PopIndex(frontier[1..]) + 1;
      if frontier[0].distance <= frontier[i].distance then 0 else i
  }

  function MinLength(lb: Option<nat>, length: nat): (r: nat)
    ensures r <= length && (lb.Some? ==> r <= lb.value)
    ensures r == length || (lb.Some? && r == lb.value)
  {
    if lb.Some? && lb.value < length then lb.value else length
  }

  /** `lb` is the least of the lengths the goal was popped with. */
  predicate Least(lb: Option<nat>, arrivals: seq<nat>)
  {
    && (lb.None? <==> arrivals == [])
    && (lb.Some? ==> lb.value in arrivals && forall v :: v in arrivals ==> lb.value <= v)
  }

  datatype Outcome = Finished(best: Option<nat>, arrivals: seq<nat>) | OutOfFuel

  /** What the search keeps true: no state is closer to the start than its
      length, every state after the first stands on an open cell, and `lb`
      is the least arrival, none of which beats the Manhattan distance. */
  predicate Searching(g: Grid<char>, start: Point, end: Point, frontier: seq<State>,
                      lb: Option<nat>, arrivals: seq<nat>)
    requires Rectangular(g)
  {
    && (forall i :: 0 <= i < |frontier| ==>
          frontier[i].length >= Manhattan(start, frontier[i].position)
          && (frontier[i].position == start || Open(g, frontier[i].position)))
    && Least(lb, arrivals)
    && (forall v :: v in arrivals ==> v >= Manhattan(start, end))
  }

  /** A successor is no closer to the start than its length. */
  lemma SuccessorsFar(g: Grid<char>, start: Point, s: State, end: Point, ubs: map<Point, nat>)
    requires Rectangular(g) && s.length >= Manhattan(start, s.position)
    ensures forall c :: c in Successors(g, s, end, ubs) ==> c.length >= Manhattan(start, c.position)
  {
    forall c | c in Successors(g, s, end, ubs) ensures c.length >= Manhattan(start, c.position) {
      Triangle(start, s.position, c.position);
    }
  }

  /** Every open neighbour of `p` holds a record of at most `n + 1`. */
  ghost predicate Expanded(g: Grid<char>, ubs: map<Point, nat>, p: Point, n: nat)
    requires Rectangular(g)
  {
    forall d: Direction :: Open(g, Add(p, ToDxDy(d))) ==>
      Add(p, ToDxDy(d)) in ubs && ubs[Add(p, ToDxDy(d))] <= n + 1
  }

  /** The lengths the search has established for a cell: 0 for the start,
      and the cell's record. */
  predicate Known(start: Point, ubs: map<Point, nat>, p: Point, n: nat)
  {
    (p == start && n == 0) || (p in ubs && ubs[p] == n)
  }

  /** Why the search is complete once the heap drains: every established
      length is still queued, or has been expanded, or, on the end, is
      already matched by `lb`. */
  ghost predicate Settled(g: Grid<char>, start: Point, end: Point, frontier: seq<State>,
                          ubs: map<Point, nat>, lb: Option<nat>)
    requires Rectangular(g)
  {
    forall p, n :: Known(start, ubs, p, n) ==>
      || State(p, n, Manhattan(p, end)) in frontier
      || (p != end && Expanded(g, ubs, p, n))
      || (p == end && lb.Some? && lb.value <= n)
  }

  /** Why the search is sound: every queued state and every arrival lies at
      the end of a track of its length. */
  ghost predicate Sound(g: Grid<char>, start: Point, end: Point, frontier: seq<State>, arrivals: seq<nat>)
    requires Rectangular(g)
  {
    && (forall i :: 0 <= i < |frontier| ==> Reaches(g, start, frontier[i].position, frontier[i].length))
    && (forall v :: v in arrivals ==> Reaches(g, start, end, v))
  }

  /** Removing one element keeps every other one. */
  lemma RemoveAt<T>(s: seq<T>, i: nat, x: T)
    requires i < |s| && x in s
    ensures x in s[..i] + s[i + 1..] || x == s[i]
  {
    var j :| 0 <= j < |s| && s[j] == x;
    if j < i {
      assert (s[..i] + s[i + 1..])[j] == x;
    } else if j > i {
      assert (s[..i] + s[i + 1..])[j - 1] == x;
    }
  }

  /** Expanding a state settles it: afterwards each open neighbour's record
      is at most one more than its length. */
  lemma ExpandedByPop(g: Grid<char>, s: State, end: Point, ubs0: map<Point, nat>)
    requires Rectangular(g)
    ensures Expanded(g, Record(ubs0, Successors(g, s, end, ubs0)), s.position, s.length)
  {
    var next := Successors(g, s, end, ubs0);
    var ubs := Record(ubs0, next);
    forall d: Direction | Open(g, Add(s.position, ToDxDy(d)))
      ensures Add(s.position, ToDxDy(d)) in ubs && ubs[Add(s.position, ToDxDy(d))] <= s.length + 1
    {
      var q := Add(s.position, ToDxDy(d));
      var c := StepTo(s, d, end);
      if c in next {
        forall c' | c' in next && c'.position == c.position ensures c' == c {
          SuccessorsDistinct(g, s, end, ubs0, c, c');
        }
      } else {
        RecordLowers(g, s, end, ubs0, q);
      }
    }
  }

  /** Records only fall, so an expanded cell stays expanded. */
  lemma ExpandedLowered(g: Grid<char>, s: State, end: Point, ubs0: map<Point, nat>, p: Point, n: nat)
    requires Rectangular(g) && Expanded(g, ubs0, p, n)
    ensures Expanded(g, Record(ubs0, Successors(g, s, end, ubs0)), p, n)
  {
    forall d: Direction | Open(g, Add(p, ToDxDy(d)))
      ensures Add(p, ToDxDy(d)) in Record(ubs0, Successors(g, s, end, ubs0))
      ensures Record(ubs0, Successors(g, s, end, ubs0))[Add(p, ToDxDy(d))] <= n + 1
    {
      RecordLowers(g, s, end, ubs0, Add(p, ToDxDy(d)));
    }
  }

  /** Popping an arrival keeps the search settled. */
  lemma SettledArrival(g: Grid<char>, start: Point, end: Point, frontier0: seq<State>, ubs: map<Point, nat>,
                       lb0: Option<nat>, i: nat)
    requires Rectangular(g) && i < |frontier0| && frontier0[i].position == end
    requires Settled(g, start, end, frontier0, ubs, lb0)
    ensures Settled(g, start, end, frontier0[..i] + frontier0[i + 1..], ubs, Some(MinLength(lb0, frontier0[i].length)))
  {
    var frontier := frontier0[..i] + frontier0[i + 1..];
    forall p, n | Known(start, ubs, p, n) && State(p, n, Manhattan(p, end)) in frontier0
      ensures State(p, n, Manhattan(p, end)) in frontier || (p == end && MinLength(lb0, frontier0[i].length) <= n)
    {
      RemoveAt(frontier0, i, State(p, n, Manhattan(p, end)));
    }
  }

  /** Expanding a state other than the end keeps the search settled. */
  lemma SettledExpand(g: Grid<char>, start: Point, end: Point, frontier0: seq<State>, ubs0: map<Point, nat>,
                      lb: Option<nat>, i: nat)
    requires Rectangular(g) && i < |frontier0| && frontier0[i].position != end
    requires Settled(g, start, end, frontier0, ubs0, lb)
    ensures Settled(g, start, end, frontier0[..i] + frontier0[i + 1..] + Successors(g, frontier0[i], end, ubs0),
                    Record(ubs0, Successors(g, frontier0[i], end, ubs0)), lb)
  {
    var s := frontier0[i];
    var next := Successors(g, s, end, ubs0);
    var frontier := frontier0[..i] + frontier0[i + 1..] + next;
    var ubs := Record(ubs0, next);
    ExpandedByPop(g, s, end, ubs0);
    forall p, n | Known(start, ubs, p, n)
      ensures || State(p, n, Manhattan(p, end)) in frontier
              || (p != end && Expanded(g, ubs, p, n))
              || (p == end && lb.Some? && lb.value <= n)
    {
      if c :| c in next && c.position == p && p in ubs && ubs[p] == n {
        forall c' | c' in next && c'.position == c.position ensures c' == c {
          SuccessorsDistinct(g, s, end, ubs0, c, c');
        }
        assert c == State(p, n, Manhattan(p, end));
      } else {
        assert Known(start, ubs0, p, n);
        var x := State(p, n, Manhattan(p, end));
        if x in frontier0 {
          RemoveAt(frontier0, i, x);
        } else if p != end {
          ExpandedLowered(g, s, end, ubs0, p, n);
        }
      }
    }
  }

  /** One turn keeps every queued state and arrival at the end of a track. */
  lemma SoundPop(g: Grid<char>, start: Point, end: Point, frontier0: seq<State>, arrivals: seq<nat>,
                 i: nat, next: seq<State>)
    requires Rectangular(g) && i < |frontier0| && Sound(g, start, end, frontier0, arrivals)
    requires forall c :: c in next ==> Open(g, c.position) && OneStep(frontier0[i], end, c)
    ensures Sound(g, start, end, frontier0[..i] + frontier0[i + 1..] + next, arrivals)
    ensures frontier0[i].position == end ==>
              Sound(g, start, end, frontier0[..i] + frontier0[i + 1..], arrivals + [frontier0[i].length])
  {
    var s := frontier0[i];
    var rest := frontier0[..i] + frontier0[i + 1..];
    var frontier := rest + next;
    forall k | 0 <= k < |frontier| ensures Reaches(g, start, frontier[k].position, frontier[k].length) {
      if k < i {
        assert frontier[k] == frontier0[k];
      } else if k < |rest| {
        assert frontier[k] == frontier0[k + 1];
      } else {
        var c := next[k - |rest|];
        assert c in next && frontier[k] == c;
        ReachesStep(g, start, s.position, s.length, c.position);
      }
    }
    forall k | 0 <= k < |rest| ensures Reaches(g, start, rest[k].position, rest[k].length) {
      if k < i {
        assert rest[k] == frontier0[k];
      } else {
        assert rest[k] == frontier0[k + 1];
      }
    }
  }

  /** Once the heap drains, `lb` is at most the length of every track to the
      end: along the track every cell holds an established length no larger
      than its position on the track. */
  lemma {:induction false} SettledDrained(g: Grid<char>, start: Point, end: Point, ubs: map<Point, nat>,
                                          lb: Option<nat>, t: seq<Point>)
    requires Rectangular(g) && Settled(g, start, end, [], ubs, lb)
    requires Track(g, start, t) && Last(t) == end
    ensures lb.Some? && lb.value <= |t| - 1
  {
    var k := 0;
    var m: nat := 0;
    while k < |t| - 1 && t[k] != end
      invariant 0 <= k <= |t| - 1 && m <= k && Known(start, ubs, t[k], m)
      decreases |t| - 1 - k
    {
      assert Expanded(g, ubs, t[k], m);
      assert IsUnit(Minus(t[k + 1], t[k]));
      var d := UnitDirection(Minus(t[k + 1], t[k]));
      assert Add(t[k], ToDxDy(d)) == t[k + 1];
      assert Open(g, t[k + 1]);
      m := ubs[t[k + 1]];
      k := k + 1;
    }
  }

  /** One turn keeps the frontier's lengths no shorter than the Manhattan
      distance and `lb` the least arrival. */
  lemma SearchingPop(g: Grid<char>, start: Point, end: Point, frontier0: seq<State>, lb0: Option<nat>,
                     arrivals0: seq<nat>, i: nat, next: seq<State>)
    requires Rectangular(g) && i < |frontier0| && Searching(g, start, end, frontier0, lb0, arrivals0)
    requires forall c :: c in next ==> Open(g, c.position) && c.length >= Manhattan(start, c.position)
    ensures Searching(g, start, end, frontier0[..i] + frontier0[i + 1..] + next, lb0, arrivals0)
    ensures frontier0[i].position == end ==>
              Searching(g, start, end, frontier0[..i] + frontier0[i + 1..],
                        Some(MinLength(lb0, frontier0[i].length)), arrivals0 + [frontier0[i].length])
  {
    var rest := frontier0[..i] + frontier0[i + 1..];
    var frontier := rest + next;
    forall k | 0 <= k < |frontier|
      ensures frontier[k].length >= Manhattan(start, frontier[k].position)
      ensures frontier[k].position == start || Open(g, frontier[k].position)
    {
      if k < i {
        assert frontier[k] == frontier0[k];
      } else if k < |rest| {
        assert frontier[k] == frontier0[k + 1];
      } else {
        assert frontier[k] in next;
      }
    }
    forall k | 0 <= k < |rest|
      ensures rest[k].length >= Manhattan(start, rest[k].position)
      ensures rest[k].position == start || Open(g, rest[k].position)
    {
      if k < i {
        assert rest[k] == frontier0[k];
      } else {
        assert rest[k] == frontier0[k + 1];
      }
    }
  }

  /** One turn of the loop: pop the state nearest the end; an arrival
      lowers `lb`, any other state is expanded. */
  method PopStep(g: Grid<char>, start: Point, end: Point, frontier0: seq<State>, ubs0: map<Point, nat>,
                 lb0: Option<nat>, arrivals0: seq<nat>)
    returns (frontier: seq<State>, ubs: map<Point, nat>, lb: Option<nat>, arrivals: seq<nat>)
    requires Rectangular(g) && |frontier0| > 0
    requires Searching(g, start, end, frontier0, lb0, arrivals0)
    requires Settled(g, start, end, frontier0, ubs0, lb0) && Sound(g, start, end, frontier0, arrivals0)
    ensures Searching(g, start, end, frontier, lb, arrivals)
    ensures Settled(g, start, end, frontier, ubs, lb) && Sound(g, start, end, frontier, arrivals)
    ensures frontier0 == [State(end, 0, 0)] ==> frontier == [] && arrivals == arrivals0 + [0]
  {
    var i := PopIndex(frontier0);
    var s := frontier0[i];
    frontier := frontier0[..i] + frontier0[i + 1..];
    ubs := ubs0;
    lb := lb0;
    arrivals := arrivals0;
    if s.position == end {
      lb := Some(MinLength(lb0, s.length));
      arrivals := arrivals0 + [s.length];
      SettledArrival(g, start, end, frontier0, ubs0, lb0, i);
      SoundPop(g, start, end, frontier0, arrivals0, i, []);
      SearchingPop(g, start, end, frontier0, lb0, arrivals0, i, []);
    } else {
      var next := Successors(g, s, end, ubs0);
      SuccessorsFar(g, start, s, end, ubs0);
      SettledExpand(g, start, end, frontier0, ubs0, lb0, i);
      SoundPop(g, start, end, frontier0, arrivals0, i, next);
      SearchingPop(g, start, end, frontier0, lb0, arrivals0, i, next);
      ubs := Record(ubs0, next);
      frontier := frontier + next;
    }
  }

  /** `solve_without_cheating`, for at most `fuel` pops: `None` from a
      wall, `Some(0)` when the start is the end, and otherwise the least
      length the end was popped with, never less than the Manhattan
      distance. That least length is the length of a shortest track from
      the start to the end, and `None` means there is no track at all.
      `OutOfFuel` when the frontier is still non-empty. */
  method SolveWithoutCheating(g: Grid<char>, start: Point, end: Point, fuel: nat) returns (r: Outcome)
    requires Rectangular(g)
    ensures CharAt(g, start) == Some('#') ==> r == Finished(None, [])
    ensures CharAt(g, start) != Some('#') && start == end && fuel > 0 ==> r == Finished(Some(0), [0])
    ensures r.Finished? ==> Least(r.best, r.arrivals)
    ensures r.Finished? ==> forall v :: v in r.arrivals ==> v >= Manhattan(start, end)
    ensures r.Finished? && r.best.Some? ==> Reaches(g, start, end, r.best.value)
    ensures r.Finished? ==> forall t :: Track(g, start, t) && Last(t) == end ==> r.best.Some? && r.best.value <= |t| - 1
  {
    if CharAt(g, start) == Some('#') {
      return Finished(None, []);
    }
    var init := State(start, 0, Manhattan(start, end));
    var frontier := [init];
    var ubs: map<Point, nat> := map[];
    var lb: Option<nat> := None;
    var arrivals: seq<nat> := [];
    var steps := fuel;
    assert Track(g, start, [start]) && Last([start]) == start;
    while |frontier| > 0 && steps > 0
      invariant Searching(g, start, end, frontier, lb, arrivals)
      invariant Settled(g, start, end, frontier, ubs, lb) && Sound(g, start, end, frontier, arrivals)
      invariant start == end && fuel > 0 ==>
                  (steps == fuel && frontier == [init] && arrivals == [])
                  || (frontier == [] && arrivals == [0])
      decreases steps
    {
      frontier, ubs, lb, arrivals := PopStep(g, start, end, frontier, ubs, lb, arrivals);
      steps := steps - 1;
    }
    if |frontier| > 0 {
      return OutOfFuel;
    }
    forall t | Track(g, start, t) && Last(t) == end ensures lb.Some? && lb.value <= |t| - 1 {
      SettledDrained(g, start, end, ubs, lb, t);
    }
    r := Finished(lb, arrivals);
  }

  // ---------------------------------------------------------------------
  // `find_all_cheats_from_a_point`

  /** A walk ends no further from its first point than its number of steps. */
  lemma {:induction false} WalkSpan(path: seq<Point>)
    requires |path| > 0 && IsWalk(path)
    ensures Manhattan(path[0], Last(path)) <= |path| - 1
  {
    if |path| > 1 {
      var prefix := path[..|path| - 1];
      assert IsWalk(prefix) by {
        forall k | 0 <= k < |prefix| - 1 ensures IsUnit(Minus(prefix[k + 1], prefix[k])) {
          assert prefix[k + 1] == path[k + 1] && prefix[k] == path[k];
        }
      }
      WalkSpan(prefix);
      var k := |path| - 2;
      assert IsUnit(Minus(path[k + 1], path[k]));
      Triangle(path[0], Last(prefix), Last(path));
    }
  }

  /** A candidate path of the cheat search: it leaves `origin` by unit steps
      over on-map cells. */
  predicate Candidate(g: Grid<char>, origin: Point, path: seq<Point>)
    requires Rectangular(g)
  {
    && |path| >= 2 && path[0] == origin && IsWalk(path)
    && forall k :: 1 <= k < |path| ==> OnMap(g, path[k])
  }

  lemma CandidateExtend(g: Grid<char>, origin: Point, points: seq<Point>, d: Direction)
    requires Rectangular(g) && |points| >= 1 && points[0] == origin && IsWalk(points)
    requires forall k :: 1 <= k < |points| ==> OnMap(g, points[k])
    requires OnMap(g, Add(Last(points), ToDxDy(d)))
    ensures Candidate(g, origin, points + [Add(Last(points), ToDxDy(d))])
  {
    var next := points + [Add(Last(points), ToDxDy(d))];
    forall k | 0 <= k < |next| - 1 ensures IsUnit(Minus(next[k + 1], next[k])) {
      if k < |points| - 1 {
        assert next[k + 1] == points[k + 1] && next[k] == points[k];
      } else {
        assert Minus(next[k + 1], next[k]) == ToDxDy(d);
      }
    }
  }

  /** The cheat-free race cannot reach `q` from `origin` in as few steps as
      their Manhattan distance: every track from `origin` to `q` is longer. */
  ghost predicate Detour(g: Grid<char>, origin: Point, q: Point)
    requires Rectangular(g)
  {
    forall t :: Track(g, origin, t) && Last(t) == q ==> |t| - 1 > Manhattan(q, origin)
  }

  /** The test `res.is_none() || res.unwrap() > distance` on a finished
      cheat-free search holds exactly on a detour. */
  lemma PossibleIsDetour(g: Grid<char>, origin: Point, q: Point, res: Outcome)
    requires Rectangular(g) && res.Finished?
    requires res.best.Some? ==> Reaches(g, origin, q, res.best.value)
    requires forall t :: Track(g, origin, t) && Last(t) == q ==> res.best.Some? && res.best.value <= |t| - 1
    ensures (res.best.None? || res.best.value > Manhattan(q, origin)) <==> Detour(g, origin, q)
  {
  }

  /** `is_a_possible_cheat`: the next point is on the map and is a detour
      from the origin. `None` when the nested search runs out of fuel. */
  method PossibleCheat(g: Grid<char>, origin: Point, nextPoint: Point, fuel: nat) returns (r: Option<bool>)
    requires Rectangular(g)
    ensures r.Some? ==> (r.value <==> OnMap(g, nextPoint) && Detour(g, origin, nextPoint))
    ensures CharAt(g, origin) == Some('#') ==> r.Some?
  {
    if !OnMap(g, nextPoint) {
      return Some(false);
    }
    var res := SolveWithoutCheating(g, origin, nextPoint, fuel);
    if res.OutOfFuel? {
      return None;
    }
    PossibleIsDetour(g, origin, nextPoint, res);
    r := Some(res.best.None? || res.best.value > Manhattan(nextPoint, origin));
  }

  /** The first step in direction `d` from the origin, if it is a detour on
      the map, is among the candidates. */
  ghost predicate FirstStepFound(g: Grid<char>, origin: Point, d: Direction, candidates: seq<seq<Point>>)
    requires Rectangular(g)
  {
    var q := Add(origin, ToDxDy(d));
    OnMap(g, q) && Detour(g, origin, q) ==> [origin, q] in candidates
  }

  /** The bound the candidate loop keeps on path lengths: one more point
      than the budget, and never fewer than two. */
  function PathBound(maxDistance: nat): nat
  {
    if maxDistance == 0 then 2 else maxDistance + 1
  }

  /** The queue of the cheat search: partial walks from `origin`, none
      longer than the candidates found so far allow. */
  predicate Queued(g: Grid<char>, origin: Point, maxDistance: nat, found: nat, queue: seq<(seq<Point>, Direction)>)
    requires Rectangular(g)
  {
    forall i :: 0 <= i < |queue| ==>
      var points := queue[i].0;
      && |points| >= 1 && points[0] == origin && IsWalk(points)
      && (forall k :: 1 <= k < |points| ==> OnMap(g, points[k]))
      && |points| - 1 <= found
      && (|points| == 1 || |points| - 1 < maxDistance)
  }

  /** The queue entries extending `next` in every direction but `d`. */
  function Branches(next: seq<Point>, d: Direction): (r: seq<(seq<Point>, Direction)>)
    ensures |r| == 3
    ensures forall i :: 0 <= i < 3 ==> r[i] == (next, Others(d)[i])
  {
    var o := Others(d);
    [(next, o[0]), (next, o[1]), (next, o[2])]
  }

  /** The queue `find_all_cheats_from_a_point` starts from: the origin alone,
      headed North, South, West and East. */
  function InitialQueue(origin: Point): (r: seq<(seq<Point>, Direction)>)
  {
    [([origin], North), ([origin], South), ([origin], West), ([origin], East)]
  }

  /** Every candidate is a walk from the origin within the path bound that
      ends on a detour. */
  ghost predicate Gathered(g: Grid<char>, origin: Point, maxDistance: nat, candidates: seq<seq<Point>>)
    requires Rectangular(g)
  {
    forall i :: 0 <= i < |candidates| ==>
      Candidate(g, origin, candidates[i]) && |candidates[i]| <= PathBound(maxDistance)
      && Detour(g, origin, Last(candidates[i]))
  }

  /** After `popped` turns, the initial entries not yet popped still lead
      the queue. */
  predicate FrontKept(origin: Point, popped: nat, queue: seq<(seq<Point>, Direction)>)
  {
    popped < 4 ==> 4 - popped <= |queue| && forall j :: popped <= j < 4 ==> queue[j - popped] == InitialQueue(origin)[j]
  }

  /** The first steps of the popped initial entries are settled. */
  ghost predicate FirstStepsFound(g: Grid<char>, origin: Point, popped: nat, candidates: seq<seq<Point>>)
    requires Rectangular(g)
  {
    forall j :: 0 <= j < 4 && j < popped ==> FirstStepFound(g, origin, InitialQueue(origin)[j].1, candidates)
  }

  /** What is left of the branching budget. */
  function Budget(maxDistance: nat, found: nat): nat
  {
    if found < maxDistance then maxDistance - found else 0
  }

  /** Candidates only accumulate, so a first step once found stays found. */
  lemma FirstStepsKept(g: Grid<char>, origin: Point, popped: nat, before: seq<seq<Point>>, after: seq<seq<Point>>)
    requires Rectangular(g) && FirstStepsFound(g, origin, popped, before)
    requires forall x :: x in before ==> x in after
    ensures FirstStepsFound(g, origin, popped, after)
  {
  }

  /** The initial queue holds every direction, so once all four entries are
      popped every first step is settled. */
  lemma FirstStepsAll(g: Grid<char>, origin: Point, popped: nat, candidates: seq<seq<Point>>)
    requires Rectangular(g) && popped >= 4 && FirstStepsFound(g, origin, popped, candidates)
    ensures forall d :: FirstStepFound(g, origin, d, candidates)
  {
    forall d ensures FirstStepFound(g, origin, d, candidates) {
      var q := InitialQueue(origin);
      match d
      case North => assert q[0].1 == d;
      case South => assert q[1].1 == d;
      case West => assert q[2].1 == d;
      case East => assert q[3].1 == d;
    }
  }

  /** A turn that pops one of the initial entries settles its first step. */
  lemma VisitFirstStep(g: Grid<char>, origin: Point, popped: nat, queue0: seq<(seq<Point>, Direction)>,
                       nextPoint: Point, found: bool, candidates0: seq<seq<Point>>, candidates: seq<seq<Point>>)
    requires Rectangular(g) && |queue0| > 0 && |queue0[0].0| > 0
    requires FrontKept(origin, popped, queue0) && FirstStepsFound(g, origin, popped, candidates0)
    requires nextPoint == Add(Last(queue0[0].0), ToDxDy(queue0[0].1))
    requires found <==> OnMap(g, nextPoint) && Detour(g, origin, nextPoint)
    requires found ==> candidates == candidates0 + [queue0[0].0 + [nextPoint]]
    requires !found ==> candidates == candidates0
    ensures FirstStepsFound(g, origin, popped + 1, candidates)
  {
    FirstStepsKept(g, origin, popped, candidates0, candidates);
    if popped < 4 {
      assert queue0[popped - popped] == InitialQueue(origin)[popped];
      if found {
        assert candidates[|candidates0|] == [origin, nextPoint];
      }
    }
  }

  /** One turn of the BFS: pop a walk, and when its next point is a possible
      cheat record the longer walk as a candidate and, while under budget,
      queue it in the three other directions. `ok` is false when a nested
      search runs out of fuel. */
  method Visit(g: Grid<char>, origin: Point, maxDistance: nat, fuel: nat,
               queue0: seq<(seq<Point>, Direction)>, candidates0: seq<seq<Point>>, ghost popped: nat)
    returns (ok: bool, queue: seq<(seq<Point>, Direction)>, candidates: seq<seq<Point>>)
    requires Rectangular(g) && |queue0| > 0
    requires Queued(g, origin, maxDistance, |candidates0|, queue0) && Gathered(g, origin, maxDistance, candidates0)
    requires FrontKept(origin, popped, queue0) && FirstStepsFound(g, origin, popped, candidates0)
    ensures ok ==> Queued(g, origin, maxDistance, |candidates|, queue) && Gathered(g, origin, maxDistance, candidates)
    ensures ok ==> FrontKept(origin, popped + 1, queue) && FirstStepsFound(g, origin, popped + 1, candidates)
    ensures ok ==> Budget(maxDistance, |candidates|) < Budget(maxDistance, |candidates0|)
                   || (Budget(maxDistance, |candidates|) == Budget(maxDistance, |candidates0|) && |queue| < |queue0|)
    ensures CharAt(g, origin) == Some('#') ==> ok
  {
    var points := queue0[0].0;
    var direction := queue0[0].1;
    queue := queue0[1..];
    candidates := candidates0;
    var nextPoint := Add(Last(points), ToDxDy(direction));
    var possible := PossibleCheat(g, origin, nextPoint, fuel);
    if possible.None? {
      return false, queue, candidates;
    }
    ok := true;
    if possible.value {
      var next := points + [nextPoint];
      CandidateExtend(g, origin, points, direction);
      candidates := candidates + [next];
      if |candidates| < maxDistance {
        queue := queue + Branches(next, direction);
      }
    }
    VisitFirstStep(g, origin, popped, queue0, nextPoint, possible.value, candidates0, candidates);
  }

  /** The BFS of `find_all_cheats_from_a_point`: extend walks from `origin`
      one step at a time over on-map cells that the cheat-free race does not
      reach from `origin` in their Manhattan distance, and stop branching
      once `maxDistance` candidates are found. Every first step from the
      origin is examined, so each one that is a detour is a candidate.
      `None` when a nested search runs out of fuel. */
  method CheatCandidates(g: Grid<char>, origin: Point, maxDistance: nat, fuel: nat)
    returns (r: Option<seq<seq<Point>>>)
    requires Rectangular(g)
    ensures r.Some? ==> forall i :: 0 <= i < |r.value| ==>
              Candidate(g, origin, r.value[i]) && |r.value[i]| <= PathBound(maxDistance)
              && Detour(g, origin, Last(r.value[i]))
    ensures r.Some? ==> forall d :: FirstStepFound(g, origin, d, r.value)
    ensures CharAt(g, origin) == Some('#') ==> r.Some?
  {
    var queue := InitialQueue(origin);
    var candidates: seq<seq<Point>> := [];
    ghost var popped: nat := 0;
    while |queue| > 0
      invariant Queued(g, origin, maxDistance, |candidates|, queue) && Gathered(g, origin, maxDistance, candidates)
      invariant FrontKept(origin, popped, queue) && FirstStepsFound(g, origin, popped, candidates)
      decreases Budget(maxDistance, |candidates|), |queue|
    {
      var ok;
      ok, queue, candidates := Visit(g, origin, maxDistance, fuel, queue, candidates, popped);
      if !ok {
        return None;
      }
      popped := popped + 1;
    }
    FirstStepsAll(g, origin, popped, candidates);
    r := Some(candidates);
  }

  /** The filter of `find_all_cheats_from_a_point`: the cheat ends on a cell
      that is not a wall, right after a wall. */
  predicate ExitsWall(g: Grid<char>, path: seq<Point>)
    requires Rectangular(g) && |path| > 0
  {
    CharAt(g, Last(path)) != Some('#') && (|path| < 2 || CharAt(g, path[|path| - 2]) == Some('#'))
  }

  /** The cheat exits: the last cells of the filtered candidates, as a set. */
  function CheatExits(g: Grid<char>, candidates: seq<seq<Point>>): (r: set<Point>)
    requires Rectangular(g) && forall i :: 0 <= i < |candidates| ==> |candidates[i]| > 0
  {
    set i | 0 <= i < |candidates| && ExitsWall(g, candidates[i]) :: Last(candidates[i])
  }

  /** `find_all_cheats_from_a_point`: every exit is an on-map cell other than
      a wall, whose neighbour on the way in is a wall, within the path bound
      of the origin, and a detour from it. From a wall, every open neighbour
      of the origin is an exit. `None` when a nested search runs out of
      fuel. */
  method FindAllCheats(g: Grid<char>, origin: Point, maxDistance: nat, fuel: nat) returns (r: Option<set<Point>>)
    requires Rectangular(g)
    ensures r.Some? ==> forall q :: q in r.value ==>
              && OnMap(g, q) && CharAt(g, q) != Some('#')
              && Manhattan(origin, q) < PathBound(maxDistance)
              && (exists d :: IsUnit(d) && CharAt(g, Add(q, d)) == Some('#'))
              && Detour(g, origin, q)
    ensures CharAt(g, origin) == Some('#') ==> r.Some? && origin !in r.value
    ensures CharAt(g, origin) == Some('#') ==> forall d ::
              Open(g, Add(origin, ToDxDy(d))) ==> Add(origin, ToDxDy(d)) in r.value
  {
    var candidates := CheatCandidates(g, origin, maxDistance, fuel);
    if candidates.None? {
      return None;
    }
    var exits := CheatExits(g, candidates.value);
    forall q | q in exits
      ensures OnMap(g, q) && CharAt(g, q) != Some('#') && Manhattan(origin, q) < PathBound(maxDistance)
      ensures exists d :: IsUnit(d) && CharAt(g, Add(q, d)) == Some('#')
      ensures Detour(g, origin, q)
    {
      var i :| 0 <= i < |candidates.value| && ExitsWall(g, candidates.value[i]) && Last(candidates.value[i]) == q;
      ExitSound(g, origin, maxDistance, candidates.value[i]);
    }
    if CharAt(g, origin) == Some('#') {
      WallExits(g, origin, candidates.value);
    }
    r := Some(exits);
  }

  /** The exit of a filtered candidate lies within the path bound, next to
      the wall it was entered from. */
  lemma ExitSound(g: Grid<char>, origin: Point, maxDistance: nat, path: seq<Point>)
    requires Rectangular(g) && Candidate(g, origin, path) && |path| <= PathBound(maxDistance) && ExitsWall(g, path)
    ensures OnMap(g, Last(path)) && Manhattan(origin, Last(path)) < PathBound(maxDistance)
    ensures exists d :: IsUnit(d) && CharAt(g, Add(Last(path), d)) == Some('#')
  {
    var q := Last(path);
    WalkSpan(path);
    var k := |path| - 2;
    assert IsUnit(Minus(path[k + 1], path[k]));
    var d := Minus(path[k], q);
    assert Add(q, d) == path[k];
    UnitCases(Minus(path[k + 1], path[k]));
  }

  /** From a wall, each open neighbour of the origin is a first step the
      search settles, and its walk passes the exit filter. */
  lemma WallExits(g: Grid<char>, origin: Point, candidates: seq<seq<Point>>)
    requires Rectangular(g) && CharAt(g, origin) == Some('#')
    requires forall i :: 0 <= i < |candidates| ==> |candidates[i]| > 0
    requires forall d :: FirstStepFound(g, origin, d, candidates)
    ensures forall d :: Open(g, Add(origin, ToDxDy(d))) ==> Add(origin, ToDxDy(d)) in CheatExits(g, candidates)
  {
    forall d | Open(g, Add(origin, ToDxDy(d))) ensures Add(origin, ToDxDy(d)) in CheatExits(g, candidates) {
      WallDetour(g, origin, Add(origin, ToDxDy(d)));
      assert FirstStepFound(g, origin, d, candidates);
      var path := [origin, Add(origin, ToDxDy(d))];
      var i :| 0 <= i < |candidates| && candidates[i] == path;
      assert ExitsWall(g, candidates[i]);
    }
  }

  /** Nothing is a track from a wall, so every cell is a detour from it. */
  lemma WallDetour(g: Grid<char>, origin: Point, q: Point)
    requires Rectangular(g) && CharAt(g, origin) == Some('#')
    ensures Detour(g, origin, q)
  {
  }

  // ---------------------------------------------------------------------
  // Cheat accounting in `solve_with_cheating`

  type Cheat = (Point, Point)

  /** The length of a run that reaches the state after `pathLen` steps,
      steps onto the wall `start`, jumps to `exit` and then follows the best
      cheat-free route from there. */
  function CheatCost(pathLen: nat, cheat: Cheat, best: nat): nat
  {
    pathLen + 1 + Manhattan(cheat.0, cheat.1) + best
  }

  /** The cheat's exit has a known best route (both `unwrap`s succeed). */
  predicate Routed(routes: map<Point, Option<nat>>, cheat: Cheat)
  {
    cheat.1 in routes && routes[cheat.1].Some?
  }

  /** A routed cheat that beats `base` by at least `mi`. */
  predicate Worth(routes: map<Point, Option<nat>>, pathLen: nat, cheat: Cheat, base: nat, mi: nat)
  {
    Routed(routes, cheat) && CheatCost(pathLen, cheat, routes[cheat.1].value) + mi <= base
  }

  /** Every recorded saving is at least `mi`. */
  predicate SavesAtLeast(effective: map<Cheat, nat>, mi: nat)
  {
    forall c :: c in effective ==> effective[c] >= mi
  }

  /** One turn of the loop: a worthwhile cheat is (re)recorded with its
      saving, anything else leaves the records alone. */
  function RecordOne(effective: map<Cheat, nat>, routes: map<Point, Option<nat>>, pathLen: nat,
                     c: Cheat, base: nat, mi: nat): (r: map<Cheat, nat>)
    requires Routed(routes, c)
    ensures Worth(routes, pathLen, c, base, mi) ==> r == effective[c := base - CheatCost(pathLen, c, routes[c.1].value)]
    ensures !Worth(routes, pathLen, c, base, mi) ==> r == effective
  {
    var cost := CheatCost(pathLen, c, routes[c.1].value);
    if cost + mi <= base then effective[c := base - cost] else effective
  }

  /** The `for (start, exit) in opportunities` loop: each cheat that saves at
      least `mi` over `base` is recorded with its saving `base - cost`,
      replacing an earlier record. `None` where a route is missing and the
      Rust code panics on `unwrap`. */
  function RecordCheats(effective: map<Cheat, nat>, routes: map<Point, Option<nat>>, pathLen: nat,
                        cheats: seq<Cheat>, base: nat, mi: nat): (r: Option<map<Cheat, nat>>)
    ensures r.Some? <==> forall k :: 0 <= k < |cheats| ==> Routed(routes, cheats[k])
    ensures r.Some? ==> forall c :: c in r.value <==> c in effective || (c in cheats && Worth(routes, pathLen, c, base, mi))
    ensures r.Some? ==> forall c :: c in effective && c !in cheats ==> r.value[c] == effective[c]
    ensures r.Some? && SavesAtLeast(effective, mi) ==> SavesAtLeast(r.value, mi)
    decreases |cheats|
  {
    if cheats == [] then Some(effective)
    else
      var c := cheats[0];
      assert forall x :: x in cheats <==> x == c || x in cheats[1..];
      if !Routed(routes, c) then None
      else
        var rest := RecordCheats(RecordOne(effective, routes, pathLen, c, base, mi), routes, pathLen, cheats[1..], base, mi);
        assert forall k :: 1 <= k < |cheats| ==> cheats[k] == cheats[1..][k - 1];
        rest
  }

  /** No cheat is listed twice. */
  predicate NoRepeats(cheats: seq<Cheat>)
  {
    forall i, j :: 0 <= i < j < |cheats| ==> cheats[i] != cheats[j]
  }

  lemma NoRepeatsTail(cheats: seq<Cheat>)
    requires |cheats| > 0 && NoRepeats(cheats)
    ensures NoRepeats(cheats[1..]) && cheats[0] !in cheats[1..]
  {
    forall j | 0 <= j < |cheats[1..]| ensures cheats[1..][j] != cheats[0] {
      assert cheats[1..][j] == cheats[j + 1];
    }
    forall i, j | 0 <= i < j < |cheats[1..]| ensures cheats[1..][i] != cheats[1..][j] {
      assert cheats[1..][i] == cheats[i + 1] && cheats[1..][j] == cheats[j + 1];
    }
  }

  /** For distinct cheats each worthwhile one is recorded with exactly its
      saving. */
  lemma {:induction false} RecordCheatsSaving(effective: map<Cheat, nat>, routes: map<Point, Option<nat>>, pathLen: nat,
                                              cheats: seq<Cheat>, base: nat, mi: nat, c: Cheat)
    requires NoRepeats(cheats)
    requires RecordCheats(effective, routes, pathLen, cheats, base, mi).Some?
    requires c in cheats && Worth(routes, pathLen, c, base, mi)
    ensures RecordCheats(effective, routes, pathLen, cheats, base, mi).value[c]
              == base - CheatCost(pathLen, c, routes[c.1].value)
    decreases |cheats|
  {
    var c0 := cheats[0];
    assert Routed(routes, cheats[0]);
    var next := RecordOne(effective, routes, pathLen, c0, base, mi);
    var tail := cheats[1..];
    var rest := RecordCheats(next, routes, pathLen, tail, base, mi);
    assert RecordCheats(effective, routes, pathLen, cheats, base, mi) == rest;
    NoRepeatsTail(cheats);
    if c != c0 {
      RecordCheatsSaving(next, routes, pathLen, tail, base, mi, c);
    }
  }
}
