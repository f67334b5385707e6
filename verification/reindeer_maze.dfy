/** Day 16, the reindeer maze: a best-first search over (position, heading)
    states in which a step forward costs 1 and every 90 degree turn taken
    before the step costs 1000. It reports the lowest score and the tiles
    that lie on some lowest-score path. In this program `North` is the
    direction of growing `y`. */
module ReindeerMaze {
  import opened Wrappers
  import opened Geometry
  import opened Grids

  datatype Heading = North | South | East | West

  const AllHeadings: seq<Heading> := [North, South, East, West]

  /** `Direction::to_dx_dy`. */
  function Offset(d: Heading): Point
  {
    match d
    case North => Point(0, 1)
    case South => Point(0, -1)
    case East => Point(1, 0)
    case West => Point(-1, 0)
  }

  lemma OffsetIsUnit(d: Heading)
    ensures IsUnit(Offset(d))
  {
  }

  /** The heading whose offset is the unit step `delta`. */
  function HeadingOf(delta: Point): (d: Heading)
    requires IsUnit(delta)
    ensures Offset(d) == delta
  {
    UnitCases(delta);
    if delta == Point(0, 1) then North
    else if delta == Point(0, -1) then South
    else if delta == Point(1, 0) then East
    else West
  }

  lemma OffsetInjective(a: Heading, b: Heading)
    ensures Offset(a) == Offset(b) <==> a == b
  {
  }

  /** `State::turns_required`: the number of quarter turns between two
      headings. It is 0 for the same heading, 2 exactly when the offsets are
      opposite, 1 otherwise. */
  function TurnsRequired(from: Heading, to: Heading): (r: nat)
    ensures r <= 2
  {
    match from
    case North => (match to case North => 0 case East => 1 case South => 2 case West => 1)
    case East => (match to case North => 1 case East => 0 case South => 1 case West => 2)
    case South => (match to case North => 2 case East => 1 case South => 0 case West => 1)
    case West => (match to case North => 1 case East => 2 case South => 1 case West => 0)
  }

  lemma TurnsMeaning(from: Heading, to: Heading)
    ensures TurnsRequired(from, to) == 0 <==> from == to
    ensures TurnsRequired(from, to) == 2 <==> Offset(to) == Neg(Offset(from))
  {
  }

  lemma TurnsSymmetric(a: Heading, b: Heading)
    ensures TurnsRequired(a, b) == TurnsRequired(b, a)
  {
  }

  /** Turning is a metric on headings: going through an intermediate heading
      never costs fewer turns. */
  lemma TurnsTriangle(a: Heading, b: Heading, c: Heading)
    ensures TurnsRequired(a, c) <= TurnsRequired(a, b) + TurnsRequired(b, c)
  {
  }

  /** The score added by one move that faces `to` after facing `from`. */
  function StepCost(from: Heading, to: Heading): (r: nat)
    ensures r == 1 || r == 1001 || r == 2001
  {
    1 + TurnsRequired(from, to) * 1000
  }

  /** A search state. `path` runs from the start to the current position,
      `distance` is the Manhattan distance of the position to the goal (the
      frontier's priority). */
  datatype State = State(heading: Heading, score: nat, distance: nat, path: seq<Point>)

  type Key = (Point, Heading)

  function Last(path: seq<Point>): Point
    requires |path| > 0
  {
    path[|path| - 1]
  }

  // ---------------------------------------------------------------------
  // Walks: the meaning of a state.

  /** Consecutive points of the path are orthogonal neighbours. */
  ghost predicate IsWalk(path: seq<Point>)
  {
    forall k :: 0 <= k < |path| - 1 ==> IsUnit(Minus(path[k + 1], path[k]))
  }

  /** The heading after walking `path` from its first point, starting East. */
  ghost function FinalHeading(path: seq<Point>): Heading
    requires IsWalk(path)
  {
    if |path| < 2 then East else HeadingOf(Minus(path[|path| - 1], path[|path| - 2]))
  }

  /** The score of walking `path` from its first point facing East: each step
      costs one plus a thousand per quarter turn into its direction. */
  ghost function WalkCost(path: seq<Point>): nat
    requires IsWalk(path)
  {
    if |path| < 2 then 0
    else
      var prefix := path[..|path| - 1];
      assert IsWalk(prefix);
      WalkCost(prefix) + StepCost(FinalHeading(prefix), FinalHeading(path))
  }

  /** Tiles a path may enter after the start: neither the start tile nor a
      wall. Off-map points are not excluded, as in the Rust code. */
  ghost predicate Enterable(g: Grid<char>, p: Point)
    requires Rectangular(g)
  {
    CharAt(g, p) != Some('S') && CharAt(g, p) != Some('#')
  }

  /** A walk from `start` that, after its first point, only enters tiles the
      search may enter. */
  ghost predicate ValidPath(g: Grid<char>, start: Point, path: seq<Point>)
    requires Rectangular(g)
  {
    && |path| > 0
    && path[0] == start
    && IsWalk(path)
    && (forall k :: 1 <= k < |path| ==> Enterable(g, path[k]))
  }

  /** The invariant every state built by the search satisfies. */
  ghost predicate ValidState(g: Grid<char>, start: Point, goal: Point, s: State)
    requires Rectangular(g)
  {
    && ValidPath(g, start, s.path)
    && s.heading == FinalHeading(s.path)
    && s.score == WalkCost(s.path)
    && s.distance == Manhattan(Last(s.path), goal)
  }

  /** A unit step from the last point extends a walk. */
  lemma AppendIsWalk(path: seq<Point>, next: Point)
    requires IsWalk(path) && |path| > 0 && IsUnit(Minus(next, Last(path)))
    ensures IsWalk(path + [next])
  {
    var q := path + [next];
    forall k | 0 <= k < |q| - 1 ensures IsUnit(Minus(q[k + 1], q[k])) {
      if k < |q| - 2 {
        assert q[k + 1] == path[k + 1] && q[k] == path[k];
      }
    }
  }

  /** The extended walk faces the direction of its last step, and its cost
      grows by that step's cost. */
  lemma AppendCost(path: seq<Point>, next: Point)
    requires IsWalk(path) && |path| > 0 && IsWalk(path + [next])
    ensures IsUnit(Minus(next, Last(path)))
    ensures FinalHeading(path + [next]) == HeadingOf(Minus(next, Last(path)))
    ensures WalkCost(path + [next]) == WalkCost(path) + StepCost(FinalHeading(path), FinalHeading(path + [next]))
  {
    var q := path + [next];
    assert q[..|q| - 1] == path;
    assert q[|q| - 1] == next && q[|q| - 2] == Last(path);
  }

  /** Extending a valid state by one step in heading `d` gives the walk whose
      heading is `d` and whose cost grows by the step cost. */
  lemma ExtendWalk(g: Grid<char>, start: Point, goal: Point, s: State, d: Heading)
    requires Rectangular(g) && ValidState(g, start, goal, s)
    requires Enterable(g, Add(Last(s.path), Offset(d)))
    ensures var next := Add(Last(s.path), Offset(d));
            ValidState(g, start, goal,
              State(d, s.score + StepCost(s.heading, d), Manhattan(next, goal), s.path + [next]))
  {
    var next := Add(Last(s.path), Offset(d));
    var path := s.path + [next];
    assert Minus(next, Last(s.path)) == Offset(d);
    OffsetIsUnit(d);
    AppendIsWalk(s.path, next);
    AppendCost(s.path, next);
    OffsetInjective(HeadingOf(Offset(d)), d);
    AppendValid(g, start, s.path, next);
  }

  /** Entering an enterable tile keeps a path valid. */
  lemma AppendValid(g: Grid<char>, start: Point, path: seq<Point>, next: Point)
    requires Rectangular(g) && ValidPath(g, start, path) && IsWalk(path + [next]) && Enterable(g, next)
    ensures ValidPath(g, start, path + [next])
  {
    var q := path + [next];
    forall k | 1 <= k < |q| ensures Enterable(g, q[k]) {
      if k < |path| {
        assert q[k] == path[k];
      }
    }
  }

  // ---------------------------------------------------------------------
  // The estimate used for pruning.

  /** The turn surcharge of `explore_if_feasible`: a thousand when the goal
      is off the axis of `d`, and another thousand when moving along `d` has
      already overshot the goal. */
  function Surcharge(d: Heading, next: Point, goal: Point): (r: nat)
    ensures r <= 2000
  {
    match d
    case North => (if next.x != goal.x then 1000 else 0) + (if next.y > goal.y then 1000 else 0)
    case South => (if next.x != goal.x then 1000 else 0) + (if next.y < goal.y then 1000 else 0)
    case East => (if next.y != goal.y then 1000 else 0) + (if next.x > goal.x then 1000 else 0)
    case West => (if next.y != goal.y then 1000 else 0) + (if next.x < goal.x then 1000 else 0)
  }

  /** `approximate_score`: the score of reaching `next` plus its distance to
      the goal plus the turn surcharge, which adds at most 2000. */
  function Estimate(d: Heading, next: Point, nextScore: nat, goal: Point): (r: nat)
    ensures nextScore + Manhattan(next, goal) <= r <= nextScore + Manhattan(next, goal) + 2000
    ensures next == goal ==> r == nextScore
  {
    nextScore + Manhattan(next, goal) + Surcharge(d, next, goal)
  }

  /** The cost of making the moves `moves` one after another, facing `h`
      before the first. */
  function MovesCost(h: Heading, moves: seq<Heading>): nat
    decreases |moves|
  {
    if |moves| == 0 then 0 else StepCost(h, moves[0]) + MovesCost(moves[0], moves[1..])
  }

  /** Where the moves `moves` lead from `p` when nothing blocks them. */
  function MovesEnd(p: Point, moves: seq<Heading>): Point
    decreases |moves|
  {
    if |moves| == 0 then p else MovesEnd(Add(p, Offset(moves[0])), moves[1..])
  }

  /** The distance-plus-surcharge part of the estimate is consistent: one move
      never lowers it by more than that move costs. */
  lemma SurchargeConsistent(h: Heading, d: Heading, p: Point, goal: Point)
    ensures Manhattan(p, goal) + Surcharge(h, p, goal)
         <= StepCost(h, d) + Manhattan(Add(p, Offset(d)), goal) + Surcharge(d, Add(p, Offset(d)), goal)
  {
    OffsetIsUnit(d);
    UnitStepDistance(p, Offset(d), goal);
  }

  /** The estimate never overestimates: every sequence of moves that reaches
      the goal from `next`, facing `d`, costs at least the distance plus the
      surcharge. Walls only remove move sequences, so the estimate is a lower
      bound on the remaining score in every maze. */
  lemma {:induction false} SurchargeAdmissible(d: Heading, next: Point, goal: Point, moves: seq<Heading>)
    requires MovesEnd(next, moves) == goal
    ensures Manhattan(next, goal) + Surcharge(d, next, goal) <= MovesCost(d, moves)
    decreases |moves|
  {
    if |moves| > 0 {
      var p := Add(next, Offset(moves[0]));
      SurchargeAdmissible(moves[0], p, goal, moves[1..]);
      SurchargeConsistent(d, moves[0], next, goal);
    }
  }

  /** Hence pruning a candidate whose estimate exceeds the best score found
      so far only discards candidates all of whose completions score higher. */
  lemma EstimateIsLowerBound(d: Heading, next: Point, nextScore: nat, goal: Point, moves: seq<Heading>)
    requires MovesEnd(next, moves) == goal
    ensures Estimate(d, next, nextScore, goal) <= nextScore + MovesCost(d, moves)
  {
    SurchargeAdmissible(d, next, goal, moves);
  }

  // ---------------------------------------------------------------------
  // Cutting and splicing walks.

  lemma PrefixIsWalk(w: seq<Point>, n: nat)
    requires IsWalk(w) && 0 < n <= |w|
    ensures IsWalk(w[..n])
  {
    forall i | 0 <= i < n - 1 ensures IsUnit(Minus(w[..n][i + 1], w[..n][i])) {
      assert w[..n][i + 1] == w[i + 1] && w[..n][i] == w[i];
    }
  }

  lemma SuffixIsWalk(w: seq<Point>, a: nat)
    requires IsWalk(w) && a <= |w|
    ensures IsWalk(w[a..])
  {
    forall i | 0 <= i < |w| - a - 1 ensures IsUnit(Minus(w[a..][i + 1], w[a..][i])) {
      assert w[a..][i + 1] == w[a + i + 1] && w[a..][i] == w[a + i];
    }
  }

  /** The headings of the steps of a walk, in order. */
  ghost function Moves(w: seq<Point>): (r: seq<Heading>)
    requires IsWalk(w)
    ensures |r| == if |w| == 0 then 0 else |w| - 1
    decreases |w|
  {
    if |w| < 2 then []
    else
      SuffixIsWalk(w, 1);
      [HeadingOf(Minus(w[1], w[0]))] + Moves(w[1..])
  }

  /** Making the moves of a walk from its first point leads to its last. */
  lemma {:induction false} MovesReach(w: seq<Point>)
    requires IsWalk(w) && |w| > 0
    ensures MovesEnd(w[0], Moves(w)) == Last(w)
    decreases |w|
  {
    if |w| >= 2 {
      SuffixIsWalk(w, 1);
      MovesReach(w[1..]);
      assert Add(w[0], Offset(HeadingOf(Minus(w[1], w[0])))) == w[1];
      assert Moves(w)[1..] == Moves(w[1..]);
    }
  }

  /** The score of a walk is the score of its first `k + 1` points plus the
      cost of its remaining moves made from the heading reached there. */
  lemma {:induction false} CostSplit(w: seq<Point>, k: nat)
    requires IsWalk(w) && k < |w|
    ensures IsWalk(w[..k + 1]) && IsWalk(w[k..])
    ensures WalkCost(w) == WalkCost(w[..k + 1]) + MovesCost(FinalHeading(w[..k + 1]), Moves(w[k..]))
    decreases |w| - k
  {
    PrefixIsWalk(w, k + 1);
    SuffixIsWalk(w, k);
    if k == |w| - 1 {
      assert w[..k + 1] == w;
    } else {
      CostSplit(w, k + 1);
      OneStep(w, k);
    }
  }

  /** One step of a walk: its cost, and its heading as the first move. */
  lemma OneStep(w: seq<Point>, k: nat)
    requires IsWalk(w) && k < |w| - 1
    ensures IsWalk(w[..k + 1]) && IsWalk(w[..k + 2]) && IsWalk(w[k..]) && IsWalk(w[k + 1..])
    ensures WalkCost(w[..k + 2]) == WalkCost(w[..k + 1]) + StepCost(FinalHeading(w[..k + 1]), FinalHeading(w[..k + 2]))
    ensures Moves(w[k..]) == [FinalHeading(w[..k + 2])] + Moves(w[k + 1..])
  {
    PrefixIsWalk(w, k + 1);
    PrefixIsWalk(w, k + 2);
    SuffixIsWalk(w, k);
    SuffixIsWalk(w, k + 1);
    assert w[..k + 2] == w[..k + 1] + [w[k + 1]];
    AppendCost(w[..k + 1], w[k + 1]);
    assert w[k..][1..] == w[k + 1..];
    assert w[k..][0] == w[k] && w[k..][1] == w[k + 1];
  }

  /** A walk's score grows with every further step. */
  lemma PrefixCheaper(w: seq<Point>, k: nat)
    requires IsWalk(w) && k < |w| - 1
    ensures IsWalk(w[..k + 1])
    ensures WalkCost(w[..k + 1]) < WalkCost(w)
  {
    CostSplit(w, k);
  }

  /** Following `p` and then the part of `w` after its point `j`, where `p`
      ends, costs `p`'s score plus the moves of `w` from `j` made from the
      heading `p` ends with. */
  lemma Splice(p: seq<Point>, w: seq<Point>, j: nat)
    requires IsWalk(p) && |p| > 0 && IsWalk(w) && j < |w| && Last(p) == w[j]
    ensures IsWalk(p + w[j + 1..]) && IsWalk(w[j..])
    ensures WalkCost(p + w[j + 1..]) == WalkCost(p) + MovesCost(FinalHeading(p), Moves(w[j..]))
  {
    JoinIsWalk(p, w, j);
    SpliceParts(p, w, j);
    CostSplit(p + w[j + 1..], |p| - 1);
  }

  lemma SpliceParts(p: seq<Point>, w: seq<Point>, j: nat)
    requires |p| > 0 && j < |w| && Last(p) == w[j]
    ensures (p + w[j + 1..])[..|p|] == p
    ensures (p + w[j + 1..])[|p| - 1..] == w[j..]
  {
    var q := p + w[j + 1..];
    assert q[..|p|] == p;
    assert q[|p| - 1..] == [w[j]] + w[j + 1..];
    assert [w[j]] + w[j + 1..] == w[j..];
  }

  lemma JoinIsWalk(p: seq<Point>, w: seq<Point>, j: nat)
    requires IsWalk(p) && |p| > 0 && IsWalk(w) && j < |w| && Last(p) == w[j]
    ensures IsWalk(p + w[j + 1..])
  {
    var q := p + w[j + 1..];
    forall i | 0 <= i < |q| - 1 ensures IsUnit(Minus(q[i + 1], q[i])) {
      if i < |p| - 1 {
        assert q[i + 1] == p[i + 1] && q[i] == p[i];
      } else {
        assert q[i] == w[j + i - |p| + 1] && q[i + 1] == w[j + i - |p| + 2];
      }
    }
  }

  // ---------------------------------------------------------------------
  // One expansion.

  datatype Expansion = Expansion(next: Option<State>, lbs: map<Key, nat>)

  /** `explore_if_feasible`: the successor of `s` in heading `d`, or `None`
      when its estimate exceeds the best score `ub` found so far (`None` is
      `usize::MAX`), when it would enter the start or a wall, or when the
      best score recorded for its (point, heading) key is lower. An accepted
      successor records its score under that key; ties are accepted so that
      every equally good path survives. */
  function ExploreIfFeasible(s: State, d: Heading, goal: Point, lbs: map<Key, nat>,
                             ub: Option<nat>, g: Grid<char>): (r: Expansion)
    requires Rectangular(g) && |s.path| > 0
    ensures var next := Add(Last(s.path), Offset(d));
            var nextScore := s.score + StepCost(s.heading, d);
            && (r.next.None? <==>
                 || (ub.Some? && Estimate(d, next, nextScore, goal) > ub.value)
                 || !Enterable(g, next)
                 || ((next, d) in lbs && lbs[(next, d)] < nextScore))
            && (r.next.Some? ==>
                 && r.next.value.path == s.path + [next]
                 && r.next.value.heading == d
                 && r.next.value.distance == Manhattan(next, goal)
                 && r.next.value.score == s.score + 1 + 1000 * TurnsRequired(s.heading, d)
                 && r.lbs == lbs[(next, d) := nextScore])
            && (r.next.None? ==> r.lbs == lbs)
  {
    var next := Add(Last(s.path), Offset(d));
    var nextScore := s.score + StepCost(s.heading, d);
    var approximate := Estimate(d, next, nextScore, goal);
    if ub.Some? && approximate > ub.value then Expansion(None, lbs)
    else if CharAt(g, next) == Some('S') || CharAt(g, next) == Some('#') then Expansion(None, lbs)
    else
      var key := (next, d);
      if key in lbs && lbs[key] < nextScore then Expansion(None, lbs)
      else
        var lb := if key in lbs then lbs[key] else nextScore;
        var recorded := if lb < nextScore then lb else nextScore;
        Expansion(Some(State(d, nextScore, Manhattan(next, goal), s.path + [next])), lbs[key := recorded])
  }

  /** The dominance records only ever go down: an expansion adds or lowers
      one entry and keeps every other entry. */
  lemma ExploreLowersRecords(s: State, d: Heading, goal: Point, lbs: map<Key, nat>,
                             ub: Option<nat>, g: Grid<char>)
    requires Rectangular(g) && |s.path| > 0
    ensures var r := ExploreIfFeasible(s, d, goal, lbs, ub, g);
            && lbs.Keys <= r.lbs.Keys
            && (forall k :: k in lbs ==> r.lbs[k] <= lbs[k])
            && forall key :: key != KeyOf(s, d) ==> SameRecord(r.lbs, lbs, key)
  {
  }

  // ---------------------------------------------------------------------
  // The search.

  /** The frontier index the max-heap pops: a state of least `distance`
      (the first one on ties). */
  function PopIndex(frontier: seq<State>): (i: nat)
    requires |frontier| > 0
    ensures i < |frontier|
    ensures forall j :: 0 <= j < |frontier| ==> frontier[i].distance <= frontier[j].distance
  {
    if |frontier| == 1 then 0
    else
      var i := PopIndex(frontier[1..]) + 1;
      if frontier[0].distance <= frontier[i].distance then 0 else i
  }

  /** The tiles on the paths of the completed states scoring `best`. */
  function TilesOf(completed: seq<State>, best: nat): (r: set<Point>)
    ensures forall p :: p in r <==>
              exists i, k :: 0 <= i < |completed| && completed[i].score == best
                             && 0 <= k < |completed[i].path| && completed[i].path[k] == p
  {
    if |completed| == 0 then {}
    else
      var rest := TilesOf(completed[1..], best);
      var mine := if completed[0].score == best then set k | 0 <= k < |completed[0].path| :: completed[0].path[k] else {};
      assert forall p :: p in rest <==>
              exists i, k :: 1 <= i < |completed| && completed[i].score == best
                             && 0 <= k < |completed[i].path| && completed[i].path[k] == p by {
        forall p ensures p in rest <==>
              exists i, k :: 1 <= i < |completed| && completed[i].score == best
                             && 0 <= k < |completed[i].path| && completed[i].path[k] == p {
          if p in rest {
            var i, k :| 0 <= i < |completed| - 1 && completed[1..][i].score == best
                             && 0 <= k < |completed[1..][i].path| && completed[1..][i].path[k] == p;
            assert completed[i + 1] == completed[1..][i];
          }
        }
      }
      mine + rest
  }

  function MinScore(ub: Option<nat>, score: nat): (r: nat)
    ensures r <= score && (ub.Some? ==> r <= ub.value)
    ensures r == score || (ub.Some? && r == ub.value)
  {
    if ub.Some? && ub.value < score then ub.value else score
  }

  datatype Outcome =
    | Finished(best: Option<nat>, tiles: set<Point>, completed: seq<State>)
    | OutOfFuel

  /** One expansion of a popped state: append the successor in heading `d`
      to the frontier when `explore_if_feasible` accepts it. */
  method ExpandOne(g: Grid<char>, start: Point, goal: Point, s: State, d: Heading,
                   lbs0: map<Key, nat>, ub: Option<nat>, frontier0: seq<State>)
    returns (frontier: seq<State>, lbs: map<Key, nat>)
    requires Rectangular(g) && ValidState(g, start, goal, s)
    requires AllValid(g, start, goal, frontier0) && LbsSound(g, start, lbs0)
    ensures AllValid(g, start, goal, frontier) && LbsSound(g, start, lbs)
    ensures frontier == frontier0 || (|frontier| == |frontier0| + 1 && frontier[..|frontier0|] == frontier0
                                      && frontier[|frontier0|].path == s.path + [Add(Last(s.path), Offset(d))])
    ensures forall st :: st in frontier0 ==> st in frontier
    ensures Kept(s, d, goal, lbs0, ub, g, frontier)
    ensures lbs0.Keys <= lbs.Keys && forall k :: k in lbs0 ==> lbs[k] <= lbs0[k]
    ensures forall key :: key != KeyOf(s, d) ==> SameRecord(lbs, lbs0, key)
  {
    var e := ExploreIfFeasible(s, d, goal, lbs0, ub, g);
    ExploreLowersRecords(s, d, goal, lbs0, ub, g);
    lbs := e.lbs;
    frontier := frontier0;
    if e.next.Some? {
      AcceptedKeeps(g, start, goal, s, d, lbs0, ub, frontier0);
      frontier := frontier0 + [e.next.value];
      assert frontier[..|frontier0|] == frontier0;
    }
  }

  /** An accepted successor is a valid state, and recording it keeps the
      records sound. */
  lemma AcceptedKeeps(g: Grid<char>, start: Point, goal: Point, s: State, d: Heading,
                      lbs0: map<Key, nat>, ub: Option<nat>, frontier0: seq<State>)
    requires Rectangular(g) && ValidState(g, start, goal, s)
    requires AllValid(g, start, goal, frontier0) && LbsSound(g, start, lbs0)
    requires ExploreIfFeasible(s, d, goal, lbs0, ub, g).next.Some?
    ensures var e := ExploreIfFeasible(s, d, goal, lbs0, ub, g);
            && LbsSound(g, start, e.lbs)
            && AllValid(g, start, goal, frontier0 + [e.next.value])
            && (forall st :: st in frontier0 ==> st in frontier0 + [e.next.value])
  {
    var e := ExploreIfFeasible(s, d, goal, lbs0, ub, g);
    RecordSound(g, start, goal, s, d, lbs0);
    ExtendWalk(g, start, goal, s, d);
    assert e.next.value == State(d, s.score + StepCost(s.heading, d), Manhattan(Add(Last(s.path), Offset(d)), goal),
                                 s.path + [Add(Last(s.path), Offset(d))]);
  }

  /** Recording the score of an accepted successor keeps every record the
      score of a walk. */
  lemma RecordSound(g: Grid<char>, start: Point, goal: Point, s: State, d: Heading, lbs0: map<Key, nat>)
    requires Rectangular(g) && ValidState(g, start, goal, s) && LbsSound(g, start, lbs0)
    requires Enterable(g, Add(Last(s.path), Offset(d)))
    ensures LbsSound(g, start, lbs0[KeyOf(s, d) := s.score + StepCost(s.heading, d)])
  {
    ExtendWalk(g, start, goal, s, d);
    var next := Add(Last(s.path), Offset(d));
    var lbs := lbs0[KeyOf(s, d) := s.score + StepCost(s.heading, d)];
    forall key | key in lbs ensures exists p :: Witness(g, start, p, key, lbs[key]) {
      if key == KeyOf(s, d) {
        assert Witness(g, start, s.path + [next], key, lbs[key]);
      } else {
        var p :| Witness(g, start, p, key, lbs0[key]);
        assert Witness(g, start, p, key, lbs[key]);
      }
    }
  }

  /** The four expansions of one popped state, in the order North, South,
      East, West, threading the dominance records. */
  method ExpandAll(g: Grid<char>, start: Point, goal: Point, s: State,
                   lbs0: map<Key, nat>, ub: Option<nat>, frontier0: seq<State>)
    returns (frontier: seq<State>, lbs: map<Key, nat>)
    requires Rectangular(g) && ValidState(g, start, goal, s)
    requires AllValid(g, start, goal, frontier0) && LbsSound(g, start, lbs0)
    ensures AllValid(g, start, goal, frontier) && LbsSound(g, start, lbs)
    ensures |frontier0| <= |frontier| <= |frontier0| + 4 && frontier[..|frontier0|] == frontier0
    ensures forall d :: Kept(s, d, goal, lbs0, ub, g, frontier)
    ensures lbs0.Keys <= lbs.Keys && forall k :: k in lbs0 ==> lbs[k] <= lbs0[k]
  {
    frontier := frontier0;
    lbs := lbs0;
    var n := 0;
    while n < 4
      invariant 0 <= n <= 4
      invariant AllValid(g, start, goal, frontier) && LbsSound(g, start, lbs)
      invariant |frontier0| <= |frontier| <= |frontier0| + n && frontier[..|frontier0|] == frontier0
      invariant forall m :: 0 <= m < n ==> Kept(s, AllHeadings[m], goal, lbs0, ub, g, frontier)
      invariant forall m :: n <= m < 4 ==> SameRecord(lbs, lbs0, KeyOf(s, AllHeadings[m]))
      invariant lbs0.Keys <= lbs.Keys && forall k :: k in lbs0 ==> lbs[k] <= lbs0[k]
    {
      var before := frontier;
      var lbsBefore := lbs;
      frontier, lbs := ExpandOne(g, start, goal, s, AllHeadings[n], lbs, ub, frontier);
      assert frontier[..|frontier0|] == before[..|frontier0|];
      ExpandStepKeeps(g, s, n, goal, lbs0, lbsBefore, lbs, ub, before, frontier);
      n := n + 1;
    }
    EveryHeadingKept(g, s, goal, lbs0, ub, frontier);
  }

  /** One expansion inside `ExpandAll` keeps the successors accepted so far
      and touches no record a later heading reads. */
  lemma ExpandStepKeeps(g: Grid<char>, s: State, n: nat, goal: Point,
                        lbs0: map<Key, nat>, lbsBefore: map<Key, nat>, lbs: map<Key, nat>,
                        ub: Option<nat>, before: seq<State>, frontier: seq<State>)
    requires Rectangular(g) && |s.path| > 0 && n < 4
    requires forall m :: 0 <= m < n ==> Kept(s, AllHeadings[m], goal, lbs0, ub, g, before)
    requires forall m :: n <= m < 4 ==> SameRecord(lbsBefore, lbs0, KeyOf(s, AllHeadings[m]))
    requires forall st :: st in before ==> st in frontier
    requires Kept(s, AllHeadings[n], goal, lbsBefore, ub, g, frontier)
    requires forall key :: key != KeyOf(s, AllHeadings[n]) ==> SameRecord(lbs, lbsBefore, key)
    ensures forall m :: 0 <= m < n + 1 ==> Kept(s, AllHeadings[m], goal, lbs0, ub, g, frontier)
    ensures forall m :: n + 1 <= m < 4 ==> SameRecord(lbs, lbs0, KeyOf(s, AllHeadings[m]))
  {
    ExploreReadsOneRecord(s, AllHeadings[n], goal, lbsBefore, lbs0, ub, g);
    forall m | 0 <= m < n ensures Kept(s, AllHeadings[m], goal, lbs0, ub, g, frontier) {
      assert Kept(s, AllHeadings[m], goal, lbs0, ub, g, before);
    }
    forall m | n + 1 <= m < 4 ensures SameRecord(lbs, lbs0, KeyOf(s, AllHeadings[m])) {
      assert SameRecord(lbsBefore, lbs0, KeyOf(s, AllHeadings[m]));
      assert AllHeadings[m] != AllHeadings[n];
      assert SameRecord(lbs, lbsBefore, KeyOf(s, AllHeadings[m]));
    }
  }

  lemma EveryHeadingKept(g: Grid<char>, s: State, goal: Point, lbs0: map<Key, nat>, ub: Option<nat>,
                         frontier: seq<State>)
    requires Rectangular(g) && |s.path| > 0
    requires forall m :: 0 <= m < 4 ==> Kept(s, AllHeadings[m], goal, lbs0, ub, g, frontier)
    ensures forall d :: Kept(s, d, goal, lbs0, ub, g, frontier)
  {
    forall d ensures Kept(s, d, goal, lbs0, ub, g, frontier) {
      assert d == AllHeadings[if d == North then 0 else if d == South then 1 else if d == East then 2 else 3];
    }
  }

  /** Every state of `states` is a valid walk from the start. */
  ghost predicate AllValid(g: Grid<char>, start: Point, goal: Point, states: seq<State>)
    requires Rectangular(g)
  {
    forall st :: st in states ==> ValidState(g, start, goal, st)
  }

  /** Completed states are valid walks ending on the goal, and `ub` is the
      least completed score (`None` while nothing is completed). */
  ghost predicate CompletedInvariant(g: Grid<char>, start: Point, goal: Point,
                                     completed: seq<State>, ub: Option<nat>)
    requires Rectangular(g)
  {
    && (forall st :: st in completed ==> ValidState(g, start, goal, st) && Last(st.path) == goal)
    && (ub.None? <==> |completed| == 0)
    && (ub.Some? ==>
          && (exists st :: st in completed && st.score == ub.value)
          && (forall st :: st in completed ==> ub.value <= st.score))
  }

  /** What the search keeps true about its frontier and its completed states. */
  ghost predicate SearchInvariant(g: Grid<char>, start: Point, goal: Point,
                                  frontier: seq<State>, completed: seq<State>, ub: Option<nat>)
    requires Rectangular(g)
  {
    AllValid(g, start, goal, frontier) && CompletedInvariant(g, start, goal, completed, ub)
  }

  /** Removing the popped state keeps the rest of the frontier valid. */
  lemma RemoveKeepsValid(g: Grid<char>, start: Point, goal: Point, states: seq<State>, i: nat)
    requires Rectangular(g) && AllValid(g, start, goal, states) && i < |states|
    ensures AllValid(g, start, goal, states[..i] + states[i + 1..])
  {
    forall st | st in states[..i] + states[i + 1..] ensures ValidState(g, start, goal, st) {
      assert st in states[..i] || st in states[i + 1..];
    }
  }

  /** Removing the popped state keeps every state different from it. */
  lemma RemoveKeepsOthers(states: seq<State>, i: nat)
    requires i < |states|
    ensures forall st :: st in states && st != states[i] ==> st in states[..i] + states[i + 1..]
  {
    forall st | st in states && st != states[i] ensures st in states[..i] + states[i + 1..] {
      var j :| 0 <= j < |states| && states[j] == st;
      if j < i {
        assert st == states[..i][j];
      } else {
        assert st == states[i + 1..][j - i - 1];
      }
    }
  }

  /** Completing a state on the goal appends it and lowers `ub` to its score
      when that is less. */
  lemma CompleteKeeps(g: Grid<char>, start: Point, goal: Point, completed: seq<State>,
                      ub: Option<nat>, s: State)
    requires Rectangular(g) && CompletedInvariant(g, start, goal, completed, ub)
    requires ValidState(g, start, goal, s) && Last(s.path) == goal
    ensures CompletedInvariant(g, start, goal, completed + [s], Some(MinScore(ub, s.score)))
    ensures (completed + [s])[..|completed|] == completed
  {
    var m := MinScore(ub, s.score);
    var c := completed + [s];
    assert s in c;
    forall st | st in c ensures ValidState(g, start, goal, st) && Last(st.path) == goal && m <= st.score {
      if st != s {
        assert st in completed;
      }
    }
    if m != s.score {
      var w :| w in completed && w.score == ub.value;
      assert w in c;
    }
    assert c[..|completed|] == completed;
  }

  /** One turn of the loop of `solve`: pop the state nearest the goal; record
      it as completed, lowering `ub`, when it stands on the goal; otherwise
      expand it in all four headings. */
  method PopStep(g: Grid<char>, start: Point, goal: Point, frontier0: seq<State>,
                 lbs0: map<Key, nat>, ub0: Option<nat>, completed0: seq<State>)
    returns (popped: State, frontier: seq<State>, lbs: map<Key, nat>, ub: Option<nat>, completed: seq<State>)
    requires Rectangular(g) && |frontier0| > 0
    requires SearchInvariant(g, start, goal, frontier0, completed0, ub0) && LbsSound(g, start, lbs0)
    ensures SearchInvariant(g, start, goal, frontier, completed, ub) && LbsSound(g, start, lbs)
    ensures popped == frontier0[PopIndex(frontier0)] && ValidState(g, start, goal, popped)
    ensures forall st :: st in frontier0 && st != popped ==> st in frontier
    ensures Last(popped.path) == goal ==> completed == completed0 + [popped]
    ensures Last(popped.path) != goal ==> forall d :: Kept(popped, d, goal, lbs0, ub0, g, frontier)
    ensures |completed0| <= |completed| <= |completed0| + 1 && completed[..|completed0|] == completed0
    ensures ub0.Some? ==> ub.Some? && ub.value <= ub0.value
    ensures |frontier0| == 1 && |frontier0[0].path| > 0 && Last(frontier0[0].path) == goal ==>
              frontier == [] && completed == completed0 + [frontier0[0]]
  {
    var i := PopIndex(frontier0);
    var s := frontier0[i];
    popped := s;
    assert s in frontier0;
    frontier := frontier0[..i] + frontier0[i + 1..];
    RemoveKeepsValid(g, start, goal, frontier0, i);
    RemoveKeepsOthers(frontier0, i);
    lbs := lbs0;
    if Last(s.path) == goal {
      CompleteKeeps(g, start, goal, completed0, ub0, s);
      completed := completed0 + [s];
      ub := Some(MinScore(ub0, s.score));
    } else {
      ub := ub0;
      completed := completed0;
      frontier, lbs := ExpandAll(g, start, goal, s, lbs0, ub0, frontier);
    }
  }

  /** `solve` from the point where the start and the goal are known: repeat
      `PopStep` until the frontier is empty. `fuel` bounds the number of
      pops; `OutOfFuel` reports a frontier still non-empty after them. */
  method Search(g: Grid<char>, start: Point, goal: Point, fuel: nat) returns (r: Outcome)
    requires Rectangular(g)
    ensures r.Finished? ==>
      && (forall st :: st in r.completed ==> ValidState(g, start, goal, st) && Last(st.path) == goal)
      && (r.best.None? <==> |r.completed| == 0)
      && (r.best.Some? ==>
            && (exists st :: st in r.completed && st.score == r.best.value)
            && (forall st :: st in r.completed ==> r.best.value <= st.score))
      && (r.best.Some? ==> r.tiles == TilesOf(r.completed, r.best.value))
      && (r.best.None? ==> r.tiles == {})
    ensures r.Finished? ==>
      forall w :: MazeWalk(g, start, goal, w) ==> r.best.Some? && r.best.value <= WalkCost(w)
    ensures r.Finished? ==>
      forall p :: p in r.tiles <==> exists w :: Optimal(g, start, goal, w) && p in w
    ensures start == goal && fuel > 0 ==>
      r.Finished? && r.best == Some(0) && r.tiles == {start}
  {
    var init := State(East, 0, Manhattan(start, goal), [start]);
    var frontier := [init];
    var lbs: map<Key, nat> := map[];
    var ub: Option<nat> := None;
    var completed: seq<State> := [];
    var steps := fuel;
    forall w | Optimal(g, start, goal, w) ensures Progress(w, goal, frontier, completed) {
      assert w[..1] == [start];
      assert PrefixState(w, goal, 0) == init;
    }
    while |frontier| > 0 && steps > 0
      invariant SearchInvariant(g, start, goal, frontier, completed, ub) && LbsSound(g, start, lbs)
      invariant forall w :: Optimal(g, start, goal, w) ==> Progress(w, goal, frontier, completed)
      invariant start == goal && fuel > 0 ==>
                  (steps == fuel && frontier == [init] && completed == [])
                  || (frontier == [] && completed == [init])
      decreases steps
    {
      var popped, frontier', lbs', ub', completed' := PopStep(g, start, goal, frontier, lbs, ub, completed);
      forall w | Optimal(g, start, goal, w) ensures Progress(w, goal, frontier', completed') {
        ProgressStep(g, start, goal, w, frontier, completed, lbs, ub, popped, frontier', completed');
      }
      frontier, lbs, ub, completed := frontier', lbs', ub', completed';
      steps := steps - 1;
    }
    if |frontier| > 0 {
      return OutOfFuel;
    }
    forall w | Optimal(g, start, goal, w) ensures PrefixState(w, goal, |w| - 1) in completed {
      assert Progress(w, goal, frontier, completed);
    }
    FinishedComplete(g, start, goal, completed, ub);
    var tiles := FoundTiles(completed, ub);
    r := Finished(ub, tiles, completed);
    if start == goal && fuel > 0 {
      assert completed == [init];
      assert completed[0].score == 0;
      assert tiles == {start} by {
        forall p ensures p in tiles <==> p == start {
          if p == start {
            assert completed[0].path[0] == p;
          }
        }
      }
    }
  }

  /** `solve`: locate the start `S` and the goal `E` (row-major first
      occurrences) and search from the start facing East. `None` stands for
      the panic of a map without `S` or `E`. */
  method Solve(g: Grid<char>, fuel: nat) returns (r: Option<Outcome>)
    requires Rectangular(g)
    ensures r.None? <==> FindFirst(g, 'S').None? || FindFirst(g, 'E').None?
    ensures r.Some? && r.value.Finished? ==>
      forall st :: st in r.value.completed ==>
        var path := st.path;
        && |path| > 0
        && CharAt(g, path[0]) == Some('S')
        && CharAt(g, Last(path)) == Some('E')
        && IsWalk(path)
        && (forall k :: 0 <= k < |path| ==> CharAt(g, path[k]) != Some('#'))
        && st.score == WalkCost(path)
    ensures r.Some? && r.value.Finished? ==>
      forall p :: p in r.value.tiles ==> CharAt(g, p) != Some('#')
    ensures r.Some? && r.value.Finished? ==>
      forall w :: MazeWalk(g, FindFirst(g, 'S').value, FindFirst(g, 'E').value, w) ==>
        r.value.best.Some? && r.value.best.value <= WalkCost(w)
    ensures r.Some? && r.value.Finished? ==>
      forall p :: p in r.value.tiles <==>
        exists w :: Optimal(g, FindFirst(g, 'S').value, FindFirst(g, 'E').value, w) && p in w
  {
    var start := FindFirst(g, 'S');
    var goal := FindFirst(g, 'E');
    if start.None? || goal.None? {
      return None;
    }
    var o := Search(g, start.value, goal.value, fuel);
    if o.Finished? {
      CompletedAvoidWalls(g, start.value, goal.value, o.completed);
    }
    r := Some(o);
  }

  /** Completed walks start on the start tile and never stand on a wall. */
  lemma CompletedAvoidWalls(g: Grid<char>, start: Point, goal: Point, completed: seq<State>)
    requires Rectangular(g) && CharAt(g, start) == Some('S')
    requires forall st :: st in completed ==> ValidState(g, start, goal, st) && Last(st.path) == goal
    ensures forall st :: st in completed ==>
              forall k :: 0 <= k < |st.path| ==> CharAt(g, st.path[k]) != Some('#')
  {
    forall st | st in completed
      ensures forall k :: 0 <= k < |st.path| ==> CharAt(g, st.path[k]) != Some('#')
    {
      assert ValidState(g, start, goal, st);
    }
  }

  // ---------------------------------------------------------------------
  // Completeness: no least-score walk is lost.

  /** A walk through the maze from `start` to `goal` of the kind the search
      builds: it never enters a wall, nor a start tile after its first point. */
  ghost predicate MazeWalk(g: Grid<char>, start: Point, goal: Point, w: seq<Point>)
    requires Rectangular(g)
  {
    ValidPath(g, start, w) && Last(w) == goal
  }

  /** A maze walk of least score. */
  ghost predicate Optimal(g: Grid<char>, start: Point, goal: Point, w: seq<Point>)
    requires Rectangular(g)
  {
    && MazeWalk(g, start, goal, w)
    && forall w' :: MazeWalk(g, start, goal, w') ==> WalkCost(w) <= WalkCost(w')
  }

  /** The state the search builds for the first `k + 1` points of `w`. */
  ghost function PrefixState(w: seq<Point>, goal: Point, k: nat): State
    requires IsWalk(w) && k < |w|
  {
    PrefixIsWalk(w, k + 1);
    State(FinalHeading(w[..k + 1]), WalkCost(w[..k + 1]), Manhattan(w[k], goal), w[..k + 1])
  }

  /** The first `n` points of a valid path form a valid path. */
  lemma PrefixValid(g: Grid<char>, start: Point, w: seq<Point>, n: nat)
    requires Rectangular(g) && ValidPath(g, start, w) && 0 < n <= |w|
    ensures ValidPath(g, start, w[..n])
  {
    PrefixIsWalk(w, n);
    forall k | 1 <= k < n ensures Enterable(g, w[..n][k]) {
      assert w[..n][k] == w[k];
    }
  }

  /** A least-score walk reaches the goal only at its end: a walk stopping
      there earlier would score less. */
  lemma OptimalEndsAtGoal(g: Grid<char>, start: Point, goal: Point, w: seq<Point>, k: nat)
    requires Rectangular(g) && Optimal(g, start, goal, w) && k < |w| && w[k] == goal
    ensures k == |w| - 1
  {
    PrefixValid(g, start, w, k + 1);
    assert MazeWalk(g, start, goal, w[..k + 1]);
    if k < |w| - 1 {
      PrefixCheaper(w, k);
    }
  }

  /** A walk from `start` ending on `key`'s point facing `key`'s heading,
      scoring `v`. */
  ghost predicate Witness(g: Grid<char>, start: Point, p: seq<Point>, key: Key, v: nat)
    requires Rectangular(g)
  {
    ValidPath(g, start, p) && Last(p) == key.0 && FinalHeading(p) == key.1 && WalkCost(p) == v
  }

  /** Every dominance record is the score of some walk to its key. */
  ghost predicate LbsSound(g: Grid<char>, start: Point, lbs: map<Key, nat>)
    requires Rectangular(g)
  {
    forall key :: key in lbs ==> exists p :: Witness(g, start, p, key, lbs[key])
  }

  /** The record `explore_if_feasible` consults for the successor of `s` in
      heading `d`. */
  function KeyOf(s: State, d: Heading): Key
    requires |s.path| > 0
  {
    (Add(Last(s.path), Offset(d)), d)
  }

  /** Two record maps agree on `key`. */
  ghost predicate SameRecord(lbs: map<Key, nat>, lbs': map<Key, nat>, key: Key)
  {
    (key in lbs <==> key in lbs') && (key in lbs ==> lbs[key] == lbs'[key])
  }

  /** Whether a successor is accepted depends on one record only. */
  lemma ExploreReadsOneRecord(s: State, d: Heading, goal: Point, lbs: map<Key, nat>, lbs': map<Key, nat>,
                              ub: Option<nat>, g: Grid<char>)
    requires Rectangular(g) && |s.path| > 0 && SameRecord(lbs, lbs', KeyOf(s, d))
    ensures ExploreIfFeasible(s, d, goal, lbs, ub, g).next == ExploreIfFeasible(s, d, goal, lbs', ub, g).next
  {
  }

  /** The successor of `s` in heading `d`, if `explore_if_feasible` accepts
      it against `lbs` and `ub`, is in `frontier`. */
  ghost predicate Kept(s: State, d: Heading, goal: Point, lbs: map<Key, nat>, ub: Option<nat>,
                       g: Grid<char>, frontier: seq<State>)
    requires Rectangular(g) && |s.path| > 0
  {
    var e := ExploreIfFeasible(s, d, goal, lbs, ub, g);
    e.next.Some? ==> e.next.value in frontier
  }

  /** Following a valid path `p` to point `j` of a maze walk `w`, then the
      rest of `w`, is again a maze walk. */
  lemma SpliceMazeWalk(g: Grid<char>, start: Point, goal: Point, p: seq<Point>, w: seq<Point>, j: nat)
    requires Rectangular(g) && ValidPath(g, start, p) && MazeWalk(g, start, goal, w)
    requires j < |w| && Last(p) == w[j]
    ensures IsWalk(w[j..])
    ensures MazeWalk(g, start, goal, p + w[j + 1..])
    ensures WalkCost(p + w[j + 1..]) == WalkCost(p) + MovesCost(FinalHeading(p), Moves(w[j..]))
  {
    Splice(p, w, j);
    SpliceValid(g, start, p, w, j);
    SpliceLast(p, w, j);
  }

  lemma SpliceValid(g: Grid<char>, start: Point, p: seq<Point>, w: seq<Point>, j: nat)
    requires Rectangular(g) && ValidPath(g, start, p) && ValidPath(g, start, w) && j < |w|
    requires IsWalk(p + w[j + 1..])
    ensures ValidPath(g, start, p + w[j + 1..])
  {
    var q := p + w[j + 1..];
    forall i | 1 <= i < |q| ensures Enterable(g, q[i]) {
      if i < |p| {
        assert q[i] == p[i];
      } else {
        assert q[i] == w[j + 1 + i - |p|];
      }
    }
  }

  lemma SpliceLast(p: seq<Point>, w: seq<Point>, j: nat)
    requires |p| > 0 && j < |w| && Last(p) == w[j]
    ensures Last(p + w[j + 1..]) == Last(w)
  {
    if j < |w| - 1 {
      assert (p + w[j + 1..])[|p| + |w| - j - 2] == w[j + 1..][|w| - j - 2];
    } else {
      assert p + w[j + 1..] == p;
    }
  }

  /** The successor along a walk of its prefix state is its next prefix
      state. */
  lemma PrefixStep(w: seq<Point>, goal: Point, k: nat)
    requires IsWalk(w) && k < |w| - 1
    ensures IsUnit(Minus(w[k + 1], w[k]))
    ensures var s := PrefixState(w, goal, k);
            var d := HeadingOf(Minus(w[k + 1], w[k]));
            && Add(Last(s.path), Offset(d)) == w[k + 1]
            && PrefixState(w, goal, k + 1)
               == State(d, s.score + StepCost(s.heading, d), Manhattan(w[k + 1], goal), s.path + [w[k + 1]])
  {
    OneStep(w, k);
    assert w[..k + 2] == w[..k + 1] + [w[k + 1]];
    AppendCost(w[..k + 1], w[k + 1]);
  }

  /** The estimate of the next prefix state of a walk to the goal is at most
      the walk's score. */
  lemma PrefixEstimate(w: seq<Point>, goal: Point, k: nat)
    requires IsWalk(w) && k < |w| - 1 && Last(w) == goal
    ensures IsUnit(Minus(w[k + 1], w[k])) && IsWalk(w[..k + 2])
    ensures Estimate(HeadingOf(Minus(w[k + 1], w[k])), w[k + 1], WalkCost(w[..k + 2]), goal) <= WalkCost(w)
  {
    OneStep(w, k);
    CostSplit(w, k + 1);
    MovesReach(w[k + 1..]);
    assert w[k + 1..][0] == w[k + 1] && Last(w[k + 1..]) == goal;
    EstimateIsLowerBound(HeadingOf(Minus(w[k + 1], w[k])), w[k + 1], WalkCost(w[..k + 2]), goal, Moves(w[k + 1..]));
  }

  /** No sound record for a point and heading of a least-score walk is below
      the walk's score there. */
  lemma PrefixRecord(g: Grid<char>, start: Point, goal: Point, w: seq<Point>, k: nat, lbs: map<Key, nat>)
    requires Rectangular(g) && Optimal(g, start, goal, w) && 0 < k < |w|
    requires LbsSound(g, start, lbs)
    ensures IsWalk(w[..k + 1])
    ensures (w[k], FinalHeading(w[..k + 1])) in lbs ==> WalkCost(w[..k + 1]) <= lbs[(w[k], FinalHeading(w[..k + 1]))]
  {
    PrefixIsWalk(w, k + 1);
    var key := (w[k], FinalHeading(w[..k + 1]));
    if key in lbs {
      var p :| Witness(g, start, p, key, lbs[key]);
      WitnessNotCheaper(g, start, goal, w, k, p);
    }
  }

  /** A walk to a point of a least-score walk, facing the same way there,
      scores at least as much as the least-score walk up to that point. */
  lemma WitnessNotCheaper(g: Grid<char>, start: Point, goal: Point, w: seq<Point>, k: nat, p: seq<Point>)
    requires Rectangular(g) && Optimal(g, start, goal, w) && k < |w|
    requires ValidPath(g, start, p) && Last(p) == w[k]
    ensures IsWalk(w[..k + 1])
    ensures FinalHeading(p) == FinalHeading(w[..k + 1]) ==> WalkCost(w[..k + 1]) <= WalkCost(p)
  {
    CostSplit(w, k);
    SpliceMazeWalk(g, start, goal, p, w, k);
    var q := p + w[k + 1..];
    if FinalHeading(p) == FinalHeading(w[..k + 1]) {
      var rest := MovesCost(FinalHeading(p), Moves(w[k..]));
      assert WalkCost(q) == WalkCost(p) + rest;
      assert WalkCost(w) == WalkCost(w[..k + 1]) + rest;
      OptimalBeats(g, start, goal, w, q);
    }
  }

  lemma OptimalBeats(g: Grid<char>, start: Point, goal: Point, w: seq<Point>, q: seq<Point>)
    requires Rectangular(g) && Optimal(g, start, goal, w) && MazeWalk(g, start, goal, q)
    ensures WalkCost(w) <= WalkCost(q)
  {
  }

  /** The heart of completeness: when the state for the first `k + 1` points
      of a least-score walk is expanded, the successor along the walk is
      accepted. Its estimate is at most the walk's score, hence at most `ub`;
      it enters a tile the walk enters; and a record below its score would
      be the score of a walk that, spliced with the rest of the walk, would
      beat the least score. */
  lemma PrefixAdvances(g: Grid<char>, start: Point, goal: Point, w: seq<Point>, k: nat,
                       lbs: map<Key, nat>, ub: Option<nat>)
    requires Rectangular(g) && Optimal(g, start, goal, w) && k < |w| - 1
    requires LbsSound(g, start, lbs) && (ub.Some? ==> WalkCost(w) <= ub.value)
    ensures IsUnit(Minus(w[k + 1], w[k]))
    ensures ExploreIfFeasible(PrefixState(w, goal, k), HeadingOf(Minus(w[k + 1], w[k])), goal, lbs, ub, g).next
            == Some(PrefixState(w, goal, k + 1))
  {
    PrefixStep(w, goal, k);
    PrefixEstimate(w, goal, k);
    PrefixRecord(g, start, goal, w, k + 1, lbs);
    var s := PrefixState(w, goal, k);
    var d := HeadingOf(Minus(w[k + 1], w[k]));
    var next := PrefixState(w, goal, k + 1);
    var at := Add(Last(s.path), Offset(d));
    assert next == State(d, s.score + StepCost(s.heading, d), Manhattan(at, goal), s.path + [at]);
    assert Enterable(g, at);
    var e := ExploreIfFeasible(s, d, goal, lbs, ub, g);
    assert e.next.Some?;
    assert e.next.value.path == next.path && e.next.value.heading == next.heading;
    assert e.next.value.score == next.score && e.next.value.distance == next.distance;
  }

  /** `ub` is the score of a completed walk, so no least score exceeds it. */
  lemma UbAtLeast(g: Grid<char>, start: Point, goal: Point, w: seq<Point>,
                  completed: seq<State>, ub: Option<nat>)
    requires Rectangular(g) && Optimal(g, start, goal, w) && CompletedInvariant(g, start, goal, completed, ub)
    ensures ub.Some? ==> WalkCost(w) <= ub.value
  {
    if ub.Some? {
      var st :| st in completed && st.score == ub.value;
      assert MazeWalk(g, start, goal, st.path);
    }
  }

  /** The frontier invariant of completeness: some prefix state of `w` waits
      in the frontier, or the state for the whole of `w` is completed. */
  ghost predicate Progress(w: seq<Point>, goal: Point, frontier: seq<State>, completed: seq<State>)
    requires IsWalk(w) && |w| > 0
  {
    || (exists k :: 0 <= k < |w| && PrefixState(w, goal, k) in frontier)
    || PrefixState(w, goal, |w| - 1) in completed
  }

  /** One turn of the loop keeps `Progress` for every least-score walk: the
      popped prefix state is either completed, and is then the whole walk, or
      hands on to the next prefix state. */
  lemma ProgressStep(g: Grid<char>, start: Point, goal: Point, w: seq<Point>,
                     frontier0: seq<State>, completed0: seq<State>, lbs0: map<Key, nat>, ub0: Option<nat>,
                     popped: State, frontier: seq<State>, completed: seq<State>)
    requires Rectangular(g) && Optimal(g, start, goal, w)
    requires Progress(w, goal, frontier0, completed0)
    requires CompletedInvariant(g, start, goal, completed0, ub0) && LbsSound(g, start, lbs0)
    requires |popped.path| > 0
    requires forall st :: st in frontier0 && st != popped ==> st in frontier
    requires |completed0| <= |completed| && completed[..|completed0|] == completed0
    requires Last(popped.path) == goal ==> completed == completed0 + [popped]
    requires Last(popped.path) != goal ==> forall d :: Kept(popped, d, goal, lbs0, ub0, g, frontier)
    ensures Progress(w, goal, frontier, completed)
  {
    var full := PrefixState(w, goal, |w| - 1);
    if full in completed0 {
      var i :| 0 <= i < |completed0| && completed0[i] == full;
      assert completed[..|completed0|][i] == full;
    } else {
      var k :| 0 <= k < |w| && PrefixState(w, goal, k) in frontier0;
      var s := PrefixState(w, goal, k);
      if s != popped {
        assert s in frontier;
      } else if w[k] == goal {
        OptimalEndsAtGoal(g, start, goal, w, k);
        assert completed[|completed0|] == full;
      } else {
        UbAtLeast(g, start, goal, w, completed0, ub0);
        PrefixAdvances(g, start, goal, w, k, lbs0, ub0);
        assert Kept(popped, HeadingOf(Minus(w[k + 1], w[k])), goal, lbs0, ub0, g, frontier);
      }
    }
  }

  /** Below every maze walk there is a least-score one: scores are natural
      numbers. */
  lemma OptimalBelow(g: Grid<char>, start: Point, goal: Point, w: seq<Point>) returns (o: seq<Point>)
    requires Rectangular(g) && MazeWalk(g, start, goal, w)
    ensures Optimal(g, start, goal, o) && WalkCost(o) <= WalkCost(w)
    decreases WalkCost(w)
  {
    if Optimal(g, start, goal, w) {
      o := w;
    } else {
      var w' :| MazeWalk(g, start, goal, w') && WalkCost(w') < WalkCost(w);
      o := OptimalBelow(g, start, goal, w');
    }
  }

  /** The tiles `solve` reports: those on completed walks scoring `ub`. */
  function FoundTiles(completed: seq<State>, ub: Option<nat>): set<Point>
  {
    if ub.Some? then TilesOf(completed, ub.value) else {}
  }

  /** Once every least-score walk is completed, `ub` is at most the score of
      every maze walk. */
  lemma FinishedLeast(g: Grid<char>, start: Point, goal: Point, completed: seq<State>, ub: Option<nat>)
    requires Rectangular(g) && CompletedInvariant(g, start, goal, completed, ub)
    requires forall w :: Optimal(g, start, goal, w) ==> PrefixState(w, goal, |w| - 1) in completed
    ensures forall w :: MazeWalk(g, start, goal, w) ==> ub.Some? && ub.value <= WalkCost(w)
  {
    forall w | MazeWalk(g, start, goal, w) ensures ub.Some? && ub.value <= WalkCost(w) {
      var o := OptimalBelow(g, start, goal, w);
      assert o[..|o|] == o;
      assert PrefixState(o, goal, |o| - 1).score == WalkCost(o);
    }
  }

  /** Once every least-score walk is completed, `ub` is the least score of
      all maze walks, and the tiles on the completed walks scoring `ub` are
      exactly the tiles on least-score walks. */
  lemma FinishedComplete(g: Grid<char>, start: Point, goal: Point, completed: seq<State>, ub: Option<nat>)
    requires Rectangular(g) && CompletedInvariant(g, start, goal, completed, ub)
    requires forall w :: Optimal(g, start, goal, w) ==> PrefixState(w, goal, |w| - 1) in completed
    ensures forall w :: MazeWalk(g, start, goal, w) ==> ub.Some? && ub.value <= WalkCost(w)
    ensures forall p :: p in FoundTiles(completed, ub) <==>
                        exists w :: Optimal(g, start, goal, w) && p in w
  {
    FinishedLeast(g, start, goal, completed, ub);
    forall p ensures p in FoundTiles(completed, ub) <==> exists w :: Optimal(g, start, goal, w) && p in w {
      if p in FoundTiles(completed, ub) {
        FoundTileIsOnOptimal(g, start, goal, completed, ub, p);
      }
      if exists w :: Optimal(g, start, goal, w) && p in w {
        var w :| Optimal(g, start, goal, w) && p in w;
        OptimalTileIsFound(g, start, goal, completed, ub, w, p);
      }
    }
  }

  lemma FoundTileIsOnOptimal(g: Grid<char>, start: Point, goal: Point, completed: seq<State>,
                             ub: Option<nat>, p: Point)
    requires Rectangular(g) && CompletedInvariant(g, start, goal, completed, ub)
    requires forall w :: MazeWalk(g, start, goal, w) ==> ub.Some? && ub.value <= WalkCost(w)
    requires p in FoundTiles(completed, ub)
    ensures exists w :: Optimal(g, start, goal, w) && p in w
  {
    var i, k :| 0 <= i < |completed| && completed[i].score == ub.value
                && 0 <= k < |completed[i].path| && completed[i].path[k] == p;
    var st := completed[i];
    assert st in completed;
    assert MazeWalk(g, start, goal, st.path);
    assert Optimal(g, start, goal, st.path);
    assert p in st.path;
  }

  lemma OptimalTileIsFound(g: Grid<char>, start: Point, goal: Point, completed: seq<State>,
                           ub: Option<nat>, w: seq<Point>, p: Point)
    requires Rectangular(g) && CompletedInvariant(g, start, goal, completed, ub)
    requires Optimal(g, start, goal, w) && PrefixState(w, goal, |w| - 1) in completed && p in w
    ensures p in FoundTiles(completed, ub)
  {
    var full := PrefixState(w, goal, |w| - 1);
    assert w[..|w|] == w;
    UbAtLeast(g, start, goal, w, completed, ub);
    var i :| 0 <= i < |completed| && completed[i] == full;
    var k :| 0 <= k < |w| && w[k] == p;
    assert completed[i].path[k] == p;
  }

  // ---------------------------------------------------------------------
  // Mazes with a wall around them.

  /** Every border cell of the map is a wall. */
  ghost predicate WalledBorder(g: Grid<char>)
    requires Rectangular(g)
  {
    forall p :: OnMap(g, p) && (p.x == 0 || p.y == 0 || p.x == Width(g) - 1 || p.y == Height(g) - 1)
                ==> CharAt(g, p) == Some('#')
  }

  /** The Rust code lets an off-map point through (its char is `None`). In a
      maze with a walled border no valid state ever reaches one. */
  lemma {:induction false} WalledPathsStayOnMap(g: Grid<char>, start: Point, path: seq<Point>)
    requires Rectangular(g) && WalledBorder(g)
    requires OnMap(g, start) && CharAt(g, start) != Some('#')
    requires |path| > 0 && path[0] == start && IsWalk(path)
    requires forall k :: 1 <= k < |path| ==> Enterable(g, path[k])
    ensures forall k :: 0 <= k < |path| ==> OnMap(g, path[k])
    decreases |path|
  {
    if |path| > 1 {
      var prefix := path[..|path| - 1];
      WalledPathsStayOnMap(g, start, prefix);
      var p := path[|path| - 2];
      assert p == prefix[|prefix| - 1];
      assert CharAt(g, p) != Some('#');
      assert IsUnit(Minus(path[|path| - 1], p));
      forall k | 0 <= k < |path| ensures OnMap(g, path[k]) {
        if k < |path| - 1 {
          assert path[k] == prefix[k];
        }
      }
    }
  }
}
