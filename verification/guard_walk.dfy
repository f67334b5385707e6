/** Day 6: the patrolling guard, who walks forward and turns right in
    front of an obstruction, and the check whether a map traps the guard in
    a loop. Here `North` is the direction of decreasing `y`. */
module GuardWalk {
  import opened Wrappers
  import opened Geometry
  import opened Grids

  datatype Facing = North | South | East | West

  const AllFacings: set<Facing> := {North, South, East, West}

  datatype Guard = Guard(point: Point, facing: Facing)

  function Offset(f: Facing): Point
  {
    match f
    case North => Point(0, -1)
    case South => Point(0, 1)
    case East => Point(1, 0)
    case West => Point(-1, 0)
  }

  /** `State::step`: one cell forward, same facing. */
  function Step(s: Guard): Guard
  {
    Guard(Add(s.point, Offset(s.facing)), s.facing)
  }

  /** A step moves to an orthogonal neighbour and keeps the facing. */
  lemma StepMovesOneCell(s: Guard)
    ensures Step(s).facing == s.facing && IsUnit(Minus(Step(s).point, s.point))
  {
  }

  /** `State::rotate`: a quarter turn clockwise in place. */
  function Rotate(s: Guard): (r: Guard)
    ensures r.point == s.point && r.facing != s.facing
  {
    Guard(s.point, match s.facing
                   case North => East
                   case East => South
                   case South => West
                   case West => North)
  }

  /** Turning right twice faces backwards, and four turns are no turn. */
  lemma RotateCycle(s: Guard)
    ensures Offset(Rotate(Rotate(s)).facing) == Neg(Offset(s.facing))
    ensures Rotate(Rotate(Rotate(Rotate(s)))) == s
  {
  }

  /** `is_obstructed`. */
  predicate IsObstructed(g: Grid<char>, p: Point)
    requires Rectangular(g)
  {
    OnMap(g, p) && CharAt(g, p) == Some('#')
  }

  /** `can_be_made_obstructed`: an empty on-map cell. */
  predicate CanBeMadeObstructed(g: Grid<char>, p: Point)
    requires Rectangular(g)
  {
    OnMap(g, p) && CharAt(g, p) == Some('.')
  }

  /** `make_point_obstructed`: the map with a '#' at `p` and nothing else
      changed. */
  function MakeObstructed(g: Grid<char>, p: Point): (r: Grid<char>)
    requires Rectangular(g) && OnMap(g, p)
    ensures Rectangular(r) && Width(r) == Width(g) && Height(r) == Height(g)
    ensures IsObstructed(r, p)
    ensures forall q :: q != p ==> CharAt(r, q) == CharAt(g, q)
  {
    Update(g, p, '#')
  }

  /** `start_position`: the first '^' in row-major order. */
  function StartPosition(g: Grid<char>): Option<Point>
    requires Rectangular(g)
  {
    FindFirst(g, '^')
  }

  /** One turn of the patrol: step, unless the cell ahead is obstructed, in
      which case turn right in place. */
  function Next(g: Grid<char>, s: Guard): (r: Guard)
    requires Rectangular(g)
    ensures (r == Step(s) && !IsObstructed(g, Step(s).point))
         || (r == Rotate(s) && IsObstructed(g, Step(s).point))
  {
    var n := Step(s);
    if IsObstructed(g, n.point) then Rotate(s) else n
  }

  /** The guard after `n` turns of the patrol. */
  function Walk(g: Grid<char>, s: Guard, n: nat): Guard
    requires Rectangular(g)
  {
    if n == 0 then s else Next(g, Walk(g, s, n - 1))
  }

  lemma {:induction false} WalkAdd(g: Grid<char>, s: Guard, a: nat, b: nat)
    requires Rectangular(g)
    ensures Walk(g, s, a + b) == Walk(g, Walk(g, s, a), b)
    decreases b
  {
    if b > 0 {
      WalkAdd(g, s, a, b - 1);
    }
  }

  /** The guard leaves the map at some point. */
  ghost predicate Escapes(g: Grid<char>, s: Guard)
    requires Rectangular(g)
  {
    exists n: nat :: !OnMap(g, Walk(g, s, n).point)
  }

  /** Once a state repeats, the walk keeps cycling through the states seen
      before the repeat. */
  lemma {:induction false} RepeatCycles(g: Grid<char>, s: Guard, j: nat, k: nat, n: nat)
    requires Rectangular(g) && j < k && Walk(g, s, j) == Walk(g, s, k)
    ensures exists i :: 0 <= i < k && Walk(g, s, n) == Walk(g, s, i)
    decreases n
  {
    if n >= k {
      var m := j + (n - k);
      calc {
        Walk(g, s, n);
        { WalkAdd(g, s, k, n - k); }
        Walk(g, Walk(g, s, k), n - k);
        Walk(g, Walk(g, s, j), n - k);
        { WalkAdd(g, s, j, n - k); }
        Walk(g, s, m);
      }
      RepeatCycles(g, s, j, k, m);
    } else {
      assert Walk(g, s, n) == Walk(g, s, n);
    }
  }

  lemma FacingInAll(f: Facing)
    ensures f in AllFacings
  {
    match f
    case North =>
    case South =>
    case East =>
    case West =>
  }

  /** A walk that repeats a state before ever leaving the map never leaves
      it. */
  lemma RepeatTraps(g: Grid<char>, init: Guard, j: nat, k: nat)
    requires Rectangular(g) && j < k && Walk(g, init, j) == Walk(g, init, k)
    requires forall i :: 0 <= i < k ==> OnMap(g, Walk(g, init, i).point)
    ensures !Escapes(g, init)
  {
    forall n: nat ensures OnMap(g, Walk(g, init, n).point) {
      RepeatCycles(g, init, j, k, n);
    }
  }

  /** `trace` lists the first |trace| states of the walk from `init`, all on
      the map. */
  ghost predicate IsTrace(g: Grid<char>, init: Guard, trace: seq<Guard>)
    requires Rectangular(g)
  {
    forall i :: 0 <= i < |trace| ==> trace[i] == Walk(g, init, i) && OnMap(g, trace[i].point)
  }

  lemma TraceExtend(g: Grid<char>, init: Guard, trace: seq<Guard>)
    requires Rectangular(g) && IsTrace(g, init, trace) && OnMap(g, Walk(g, init, |trace|).point)
    ensures IsTrace(g, init, trace + [Walk(g, init, |trace|)])
  {
  }

  /** Every on-map guard state. */
  function OnMapStates(g: Grid<char>): (r: set<Guard>)
    requires Rectangular(g)
    ensures forall s :: s in r <==> OnMap(g, s.point)
  {
    var r := set y, x, f | 0 <= y < Height(g) && 0 <= x < Width(g) && f in AllFacings :: Guard(Point(x, y), f);
    assert forall s: Guard :: OnMap(g, s.point) ==> s in r by {
      forall s: Guard | OnMap(g, s.point) ensures s in r {
        FacingInAll(s.facing);
        assert s == Guard(Point(s.point.x, s.point.y), s.facing);
      }
    }
    r
  }

  /** `results_in_loop`: walk from the start facing North until the guard
      leaves the map (false) or a state repeats (true). The visited states
      are on-map states, finitely many, so the loop ends. The answer is true
      exactly when the guard never leaves the map. `None` stands for the
      panic of a map without '^'. */
  method ResultsInLoop(g: Grid<char>) returns (r: Option<bool>)
    requires Rectangular(g)
    ensures r.None? <==> StartPosition(g).None?
    ensures r.Some? ==> (r.value <==> !Escapes(g, Guard(StartPosition(g).value, North)))
  {
    var start := StartPosition(g);
    if start.None? {
      return None;
    }
    var init := Guard(start.value, North);
    var state := init;
    var visited: set<Guard> := {};
    ghost var trace: seq<Guard> := [];
    var all := OnMapStates(g);
    while OnMap(g, state.point)
      invariant Explored(g, init, state, visited, trace)
      invariant visited <= all
      decreases |all - visited|
    {
      if state in visited {
        RepeatFound(g, init, state, visited, trace);
        return Some(true);
      }
      assert all - (visited + {state}) < all - visited;
      ExploreStep(g, init, state, visited, trace);
      visited := visited + {state};
      trace := trace + [state];
      state := Next(g, state);
    }
    VisitedMeansEscape(g, init, |trace|);
    return Some(false);
  }

  /** The loop state of `results_in_loop`: `trace` is the walk so far, on
      the map, `state` comes next and `visited` holds the states of `trace`. */
  ghost predicate Explored(g: Grid<char>, init: Guard, state: Guard, visited: set<Guard>, trace: seq<Guard>)
    requires Rectangular(g)
  {
    state == Walk(g, init, |trace|) && IsTrace(g, init, trace) && (forall s :: s in visited <==> s in trace)
  }

  /** Meeting a visited state again means the guard is trapped. */
  lemma RepeatFound(g: Grid<char>, init: Guard, state: Guard, visited: set<Guard>, trace: seq<Guard>)
    requires Rectangular(g) && Explored(g, init, state, visited, trace) && state in visited
    ensures !Escapes(g, init)
  {
    var j :| 0 <= j < |trace| && trace[j] == state;
    assert forall i :: 0 <= i < |trace| ==> OnMap(g, Walk(g, init, i).point);
    RepeatTraps(g, init, j, |trace|);
  }

  /** A new on-map state extends the trace by one turn. */
  lemma ExploreStep(g: Grid<char>, init: Guard, state: Guard, visited: set<Guard>, trace: seq<Guard>)
    requires Rectangular(g) && Explored(g, init, state, visited, trace) && OnMap(g, state.point)
    ensures Explored(g, init, Next(g, state), visited + {state}, trace + [state])
  {
    TraceExtend(g, init, trace);
  }

  /** `calculate_visited_points`: the cells the guard stands on before it
      leaves the map, together with the start. `fuel` bounds the number of
      turns; `None` also stands for a map without '^'. */
  method VisitedPoints(g: Grid<char>, fuel: nat) returns (r: Option<set<Point>>)
    requires Rectangular(g)
    ensures StartPosition(g).None? ==> r.None?
    ensures r.Some? ==>
      var init := Guard(StartPosition(g).value, North);
      && StartPosition(g).value in r.value
      && (forall p :: p in r.value ==> OnMap(g, p))
      && exists k: nat :: LeavesAfter(g, init, k) && r.value == RouteCells(g, init, k)
  {
    var start := StartPosition(g);
    if start.None? {
      return None;
    }
    var init := Guard(start.value, North);
    var visited, state, k := WalkRoute(g, init, fuel);
    if OnMap(g, state.point) {
      return None;
    }
    assert k > 0;
    RouteEnds(g, init, k);
    assert LeavesAfter(g, init, k);
    return Some(visited);
  }

  /** The loop of `calculate_visited_points`: up to `fuel` turns while the
      guard is on the map, collecting the start and the cells stood on. */
  method WalkRoute(g: Grid<char>, init: Guard, fuel: nat) returns (visited: set<Point>, state: Guard, k: nat)
    requires Rectangular(g)
    ensures k <= fuel && state == Walk(g, init, k)
    ensures OnMap(g, state.point) ==> k == fuel
    ensures forall i :: 0 <= i < k ==> OnMap(g, Walk(g, init, i).point)
    ensures visited == {init.point} + RouteCells(g, init, k)
  {
    visited := {init.point};
    state := init;
    k := 0;
    while OnMap(g, state.point) && k < fuel
      invariant k <= fuel && state == Walk(g, init, k)
      invariant forall i :: 0 <= i < k ==> OnMap(g, Walk(g, init, i).point)
      invariant visited == {init.point} + RouteCells(g, init, k)
    {
      assert RouteCells(g, init, k + 1) == RouteCells(g, init, k) + {state.point};
      visited := visited + {state.point};
      state := Next(g, state);
      k := k + 1;
    }
  }

  /** The guard stays on the map for `k` turns and then stands off it. */
  ghost predicate LeavesAfter(g: Grid<char>, init: Guard, k: nat)
    requires Rectangular(g)
  {
    !OnMap(g, Walk(g, init, k).point) && forall i :: 0 <= i < k ==> OnMap(g, Walk(g, init, i).point)
  }

  /** A route of at least one on-map turn holds the start and only on-map
      cells, each the cell of one of its turns. */
  lemma RouteEnds(g: Grid<char>, init: Guard, k: nat)
    requires Rectangular(g) && k > 0
    requires forall i :: 0 <= i < k ==> OnMap(g, Walk(g, init, i).point)
    ensures init.point in RouteCells(g, init, k)
    ensures {init.point} + RouteCells(g, init, k) == RouteCells(g, init, k)
    ensures forall p :: p in RouteCells(g, init, k) ==> OnMap(g, p)
  {
    assert init.point in RouteCells(g, init, k) by {
      RouteCellsIff(g, init, k, init.point);
      assert Walk(g, init, 0).point == init.point;
    }
    forall p | p in RouteCells(g, init, k) ensures OnMap(g, p) {
      RouteCellsIff(g, init, k, p);
    }
  }

  /** The cells the guard stands on during its first `k` turns. */
  function RouteCells(g: Grid<char>, init: Guard, k: nat): (r: set<Point>)
    requires Rectangular(g)
  {
    if k == 0 then {} else RouteCells(g, init, k - 1) + {Walk(g, init, k - 1).point}
  }

  /** A cell is on the route of `k` turns exactly when one of those turns
      stands on it. */
  lemma {:induction false} RouteCellsIff(g: Grid<char>, init: Guard, k: nat, p: Point)
    requires Rectangular(g)
    ensures p in RouteCells(g, init, k) <==> exists i :: 0 <= i < k && Walk(g, init, i).point == p
  {
    if k > 0 {
      RouteCellsIff(g, init, k - 1, p);
      assert RouteCells(g, init, k) == RouteCells(g, init, k - 1) + {Walk(g, init, k - 1).point};
      if exists i :: 0 <= i < k && Walk(g, init, i).point == p {
        var i :| 0 <= i < k && Walk(g, init, i).point == p;
        assert i < k - 1 || Walk(g, init, k - 1).point == p;
      }
      if p in RouteCells(g, init, k - 1) {
        var i :| 0 <= i < k - 1 && Walk(g, init, i).point == p;
        assert 0 <= i < k && Walk(g, init, i).point == p;
      } else if p == Walk(g, init, k - 1).point {
        assert 0 <= k - 1 < k && Walk(g, init, k - 1).point == p;
      }
    }
  }

  /** When the visited cells are known, the guard escapes the unmodified
      map, so a loop can only come from an added obstruction. */
  lemma VisitedMeansEscape(g: Grid<char>, init: Guard, k: nat)
    requires Rectangular(g) && !OnMap(g, Walk(g, init, k).point)
    ensures Escapes(g, init)
  {
  }

  /** Putting an obstruction on an empty cell keeps the start position. */
  lemma ObstructionKeepsStart(g: Grid<char>, p: Point)
    requires Rectangular(g) && CanBeMadeObstructed(g, p)
    ensures StartPosition(MakeObstructed(g, p)) == StartPosition(g)
  {
    FindFirstSameCells(g, MakeObstructed(g, p), '^');
  }

  /** An empty cell where an obstruction traps the guard. */
  ghost predicate TrapCell(g: Grid<char>, p: Point)
    requires Rectangular(g)
  {
    CanBeMadeObstructed(g, p) && StartPosition(g).Some?
      && !Escapes(MakeObstructed(g, p), Guard(StartPosition(g).value, North))
  }

  /** The filter of `solve2` for one cell of the route. */
  method IsTrapCell(g: Grid<char>, p: Point) returns (b: bool)
    requires Rectangular(g) && StartPosition(g).Some?
    ensures b <==> TrapCell(g, p)
  {
    b := false;
    if CanBeMadeObstructed(g, p) {
      ObstructionKeepsStart(g, p);
      var loops := ResultsInLoop(MakeObstructed(g, p));
      b := loops.value;
    }
  }

  /** `solve2` once the route is known: the number of cells of `route` where
      an added obstruction makes the guard loop. */
  method CountTrapCells(g: Grid<char>, route: set<Point>) returns (count: nat)
    requires Rectangular(g) && StartPosition(g).Some?
    ensures count == |set q | q in route && TrapCell(g, q)|
  {
    var todo := route;
    count := 0;
    ghost var traps: set<Point> := {};
    while todo != {}
      invariant todo <= route
      invariant forall q :: q in traps <==> q in route && q !in todo && TrapCell(g, q)
      invariant count == |traps|
      decreases |todo|
    {
      var p :| p in todo;
      var trapped := IsTrapCell(g, p);
      if trapped {
        traps := traps + {p};
        count := count + 1;
      }
      todo := todo - {p};
    }
    assert traps == set q | q in route && TrapCell(g, q);
  }
}
