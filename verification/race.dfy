/** Day 20, part one: a race track on which a program may, once per run,
    pass through walls ("cheat").  The search keeps, per cheat, the best
    known length of a finished run (`global_lbs`) and, per (cell, cheat),
    the best known length of a partial run (`local_ubs`); the answer counts
    the cheats whose run saves at least 100 picoseconds. */
module RaceCondition {
  import opened Wrappers
  import opened Geometry
  import opened Grids

  /** `None` while no cheat was taken, otherwise the wall cell stepped onto
      and the cell the cheat ends on. */
  type Cheat = Option<(Point, Point)>

  /** A search state: where it is, how long its path is, which cheat it took
      and its Manhattan distance to the end. */
  datatype State = State(position: Point, length: nat, cheated: Cheat, distance: nat)

  /** The saving the final count asks for. */
  const Saving: nat := 100

  /** `v > m.get(k).unwrap_or(usize::MAX)`: a missing key bounds nothing. */
  predicate Exceeds<K>(m: map<K, nat>, k: K, v: int)
  {
    k in m && v > m[k]
  }

  // ---------------------------------------------------------------------
  // Cells within reach of a cheat

  /** `v` or `-v`: the sign of a quadrant's axis. */
  function Signed(positive: bool, v: int): int
  {
    if positive then v else -v
  }

  /** `q` lies within `max` of `point` in the quadrant the two signs pick. */
  predicate InQuadrant(point: Point, max: nat, east: bool, north: bool, q: Point)
  {
    0 <= Signed(east, q.x - point.x) && 0 <= Signed(north, q.y - point.y)
    && Signed(east, q.x - point.x) + Signed(north, q.y - point.y) <= max
  }

  /** The cells a cheat from `point` may end on: other on-map cells that are
      not walls, within Manhattan distance `max`. */
  predicate Landable(g: Grid<char>, point: Point, max: nat, q: Point)
    requires Rectangular(g)
  {
    q != point && OnMap(g, q) && CharAt(g, q) != Some('#') && Manhattan(q, point) <= max
  }

  /** One of the four nested `dx`/`dy` loops: every offset with
      `dx + dy <= max` in one quadrant. */
  method Quadrant(point: Point, max: nat, east: bool, north: bool) returns (r: seq<Point>)
    ensures forall q :: q in r <==> InQuadrant(point, max, east, north, q)
  {
    r := [];
    var dx := 0;
    while dx <= max
      invariant 0 <= dx <= max + 1
      invariant forall q :: q in r <==> InQuadrant(point, max, east, north, q) && Signed(east, q.x - point.x) < dx
    {
      var dy := 0;
      while dy <= max - dx
        invariant 0 <= dy <= max - dx + 1
        invariant forall q :: q in r <==>
          (InQuadrant(point, max, east, north, q) && Signed(east, q.x - point.x) < dx)
          || (Signed(east, q.x - point.x) == dx && 0 <= Signed(north, q.y - point.y) < dy)
      {
        var p := Point(point.x + Signed(east, dx), point.y + Signed(north, dy));
        assert Signed(east, p.x - point.x) == dx && Signed(north, p.y - point.y) == dy;
        r := r + [p];
        dy := dy + 1;
      }
      dx := dx + 1;
    }
  }

  /** The four quadrants together cover exactly the Manhattan ball. */
  lemma QuadrantsCover(point: Point, max: nat, q: Point)
    ensures Manhattan(q, point) <= max <==>
      InQuadrant(point, max, true, true, q) || InQuadrant(point, max, false, true, q)
      || InQuadrant(point, max, false, false, q) || InQuadrant(point, max, true, false, q)
  {
  }

  /** `find_all_points_within_distance_of_point`: the four quadrant sweeps,
      then the filter into a set. */
  method WithinDistance(g: Grid<char>, point: Point, max: nat) returns (r: set<Point>)
    requires Rectangular(g)
    ensures forall q :: q in r <==> Landable(g, point, max, q)
  {
    var upRight := Quadrant(point, max, true, true);
    var upLeft := Quadrant(point, max, false, true);
    var downLeft := Quadrant(point, max, false, false);
    var downRight := Quadrant(point, max, true, false);
    var results := upRight + upLeft + downLeft + downRight;
    r := set q | q in results && q != point && OnMap(g, q) && CharAt(g, q) != Some('#');
    forall q
      ensures q in results <==> Manhattan(q, point) <= max
    {
      QuadrantsCover(point, max, q);
    }
  }

  // ---------------------------------------------------------------------
  // Exploring one direction

  /** The state a step onto a free (or off-map) cell produces. */
  function PlainStep(s: State, next: Point, end: Point): State
  {
    State(next, s.length + 1, s.cheated, Manhattan(end, next))
  }

  /** The state a cheat through the wall `wall`, ending on `endpoint`,
      produces: the jump is paid for by its distance from the current cell. */
  function CheatStep(s: State, wall: Point, endpoint: Point, end: Point): State
  {
    State(endpoint, s.length + Manhattan(s.position, endpoint), Some((wall, endpoint)), Manhattan(endpoint, end))
  }

  function CheatSteps(s: State, wall: Point, endpoints: seq<Point>, end: Point): (r: seq<State>)
    ensures |r| == |endpoints|
    ensures forall i :: 0 <= i < |r| ==> r[i] == CheatStep(s, wall, endpoints[i], end)
  {
    seq(|endpoints|, i requires 0 <= i < |endpoints| => CheatStep(s, wall, endpoints[i], end))
  }

  /** The candidate survives the global test: its optimistic length does not
      exceed the best finished run for its cheat, and a cheating candidate
      still saves `mi` over the best run without a cheat. */
  predicate Promising(c: State, mi: nat, global: map<Cheat, nat>)
  {
    !Exceeds(global, c.cheated, c.length + c.distance)
    && !(c.cheated.Some? && Exceeds(global, None, c.length + c.distance + mi))
  }

  /** The candidate survives the local test: no shorter partial run is
      recorded under its key `(at, cheat)`, and for a cheating candidate no
      run shorter by `mi` is recorded under `(at, None)`. */
  predicate Unbeaten(c: State, at: Point, mi: nat, local: map<(Point, Cheat), nat>)
  {
    !Exceeds(local, (at, c.cheated), c.length)
    && !(c.cheated.Some? && Exceeds(local, (at, None), c.length + mi))
  }

  /** The keys under which the accepted states are recorded. */
  function KeysAt(at: Point, states: seq<State>): set<(Point, Cheat)>
  {
    set c | c in states :: (at, c.cheated)
  }

  lemma KeysAtCons(at: Point, c: State, rest: seq<State>)
    ensures KeysAt(at, [c] + rest) == {(at, c.cheated)} + KeysAt(at, rest)
  {
    assert forall x :: x in [c] + rest <==> x == c || x in rest;
  }

  /** The `for state in states_to_check` loop: each candidate that passes both
      tests is kept, and its length is recorded under `(at, cheat)` before
      the next candidate is looked at. */
  function Sift(cands: seq<State>, at: Point, mi: nat, local: map<(Point, Cheat), nat>,
                global: map<Cheat, nat>): (r: (seq<State>, map<(Point, Cheat), nat>))
    ensures forall c :: c in r.0 ==> c in cands && Promising(c, mi, global)
    ensures r.1.Keys == local.Keys + KeysAt(at, r.0)
    ensures forall k :: k in local && k !in KeysAt(at, r.0) ==> r.1[k] == local[k]
    ensures forall k :: k in local ==> r.1[k] <= local[k]
    decreases |cands|
  {
    if cands == [] then ([], local)
    else
      var c := cands[0];
      assert forall x :: x in cands[1..] ==> x in cands;
      if !Promising(c, mi, global) || !Unbeaten(c, at, mi, local) then
        Sift(cands[1..], at, mi, local, global)
      else
        var rest := Sift(cands[1..], at, mi, local[(at, c.cheated) := c.length], global);
        KeysAtCons(at, c, rest.0);
        ([c] + rest.0, rest.1)
  }

  /** Candidates whose cheats differ, and which do not mix a cheating and a
      non-cheating candidate, never look at each other's records. */
  predicate Independent(cands: seq<State>)
  {
    (forall i, j :: 0 <= i < j < |cands| ==> cands[i].cheated != cands[j].cheated)
    && (|cands| <= 1 || forall i :: 0 <= i < |cands| ==> cands[i].cheated.Some?)
  }

  /** For independent candidates the order of the loop does not matter: a
      candidate is kept exactly when it passes both tests against the records
      as they were before the loop, and its length is then recorded. */
  /** Dropping the first candidate keeps the rest independent, and none of
      the rest shares the first one's cheat; if any of them cheats, so does
      the first. */
  lemma IndependentTail(cands: seq<State>)
    requires Independent(cands) && cands != []
    ensures Independent(cands[1..])
    ensures forall x :: x in cands[1..] ==> x.cheated != cands[0].cheated
    ensures forall x :: x in cands[1..] && x.cheated.Some? ==> cands[0].cheated.Some?
  {
    var tail := cands[1..];
    forall i, j | 0 <= i < j < |tail| ensures tail[i].cheated != tail[j].cheated {
      assert tail[i] == cands[i + 1] && tail[j] == cands[j + 1];
    }
    if |tail| > 1 {
      forall i | 0 <= i < |tail| ensures tail[i].cheated.Some? {
        assert tail[i] == cands[i + 1];
      }
    }
    forall x | x in tail ensures x.cheated != cands[0].cheated {
      var j :| 0 <= j < |tail| && tail[j] == x;
      assert cands[0].cheated != cands[j + 1].cheated;
    }
  }

  /** Recording one candidate does not change the local test for another
      candidate with a different cheat, as long as a cheating candidate was
      not preceded by an uncheated one. */
  lemma RecordLeavesOthers(x: State, c: State, at: Point, mi: nat, local: map<(Point, Cheat), nat>)
    requires x.cheated != c.cheated && (x.cheated.Some? ==> c.cheated.Some?)
    ensures Unbeaten(x, at, mi, local[(at, c.cheated) := c.length]) <==> Unbeaten(x, at, mi, local)
  {
  }

  /** For independent candidates the order of the loop does not matter: a
      candidate is kept exactly when it passes both tests against the records
      as they were before the loop, and its length is then recorded. */
  lemma {:induction false} SiftIndependent(cands: seq<State>, at: Point, mi: nat,
                                           local: map<(Point, Cheat), nat>, global: map<Cheat, nat>)
    requires Independent(cands)
    ensures var r := Sift(cands, at, mi, local, global);
      && (forall c :: c in r.0 <==> c in cands && Promising(c, mi, global) && Unbeaten(c, at, mi, local))
      && (forall c :: c in r.0 ==> r.1[(at, c.cheated)] == c.length)
    decreases |cands|
  {
    if cands != [] {
      var c := cands[0];
      var tail := cands[1..];
      IndependentTail(cands);
      assert forall x :: x in cands <==> x == c || x in tail;
      if !Promising(c, mi, global) || !Unbeaten(c, at, mi, local) {
        SiftIndependent(tail, at, mi, local, global);
      } else {
        var local' := local[(at, c.cheated) := c.length];
        SiftIndependent(tail, at, mi, local', global);
        forall x | x in tail
          ensures Unbeaten(x, at, mi, local') <==> Unbeaten(x, at, mi, local)
        {
          RecordLeavesOthers(x, c, at, mi, local);
        }
        SiftRecorded(c, tail, at, mi, local', global);
      }
    }
  }

  /** Prepending the kept candidate `c` to what the rest kept: `c`'s record
      survives, since none of the rest shares its cheat. */
  lemma SiftRecorded(c: State, tail: seq<State>, at: Point, mi: nat,
                     local': map<(Point, Cheat), nat>, global: map<Cheat, nat>)
    requires (at, c.cheated) in local'
    requires forall x :: x in tail ==> x.cheated != c.cheated
    ensures var rest := Sift(tail, at, mi, local', global);
      (at, c.cheated) in rest.1 && rest.1[(at, c.cheated)] == local'[(at, c.cheated)]
  {
    var rest := Sift(tail, at, mi, local', global);
    assert (at, c.cheated) !in KeysAt(at, rest.0);
  }

  /** `explore_if_feasible` for the step from `s` by `d`.  `distanceCheat`
      is the cheat budget; a cheat's endpoints are the landable cells within
      `distanceCheat - 1` of the wall, listed in `endpoints` in the arbitrary
      order of the hash set the Rust code iterates.  The first component is
      the states kept, `None` for a second cheat; the second is `local_ubs`
      afterwards. */
  function Explore(g: Grid<char>, s: State, end: Point, d: Point, distanceCheat: nat, endpoints: seq<Point>,
                   mi: nat, local: map<(Point, Cheat), nat>, global: map<Cheat, nat>)
    : (r: (Option<seq<State>>, map<(Point, Cheat), nat>))
    requires Rectangular(g) && distanceCheat >= 1
    requires forall q :: q in endpoints <==> Landable(g, Add(s.position, d), distanceCheat - 1, q)
    requires forall i, j :: 0 <= i < j < |endpoints| ==> endpoints[i] != endpoints[j]
    ensures r.0.None? <==> CharAt(g, Add(s.position, d)) == Some('#') && s.cheated.Some?
    ensures r.0.None? ==> r.1 == local
    ensures forall k :: k in local ==> k in r.1 && r.1[k] <= local[k]
  {
    var next := Add(s.position, d);
    if CharAt(g, next) == Some('#') then
      if s.cheated.Some? then (None, local)
      else
        var sifted := Sift(CheatSteps(s, next, endpoints, end), next, mi, local, global);
        (Some(sifted.0), sifted.1)
    else
      var sifted := Sift([PlainStep(s, next, end)], next, mi, local, global);
      (Some(sifted.0), sifted.1)
  }

  /** A step onto a cell that is not a wall yields at most the one state one
      longer than `s`, keeping its cheat; it is kept exactly when it passes
      both tests, and its length is then recorded under `(next, cheat)`. */
  lemma ExplorePlainStep(g: Grid<char>, s: State, end: Point, d: Point, distanceCheat: nat, endpoints: seq<Point>,
                         mi: nat, local: map<(Point, Cheat), nat>, global: map<Cheat, nat>)
    requires Rectangular(g) && distanceCheat >= 1
    requires forall q :: q in endpoints <==> Landable(g, Add(s.position, d), distanceCheat - 1, q)
    requires forall i, j :: 0 <= i < j < |endpoints| ==> endpoints[i] != endpoints[j]
    requires CharAt(g, Add(s.position, d)) != Some('#')
    ensures var r := Explore(g, s, end, d, distanceCheat, endpoints, mi, local, global);
      var next := Add(s.position, d);
      && r.0.Some?
      && (forall c :: c in r.0.value <==>
            c == State(next, s.length + 1, s.cheated, Manhattan(end, next))
            && Promising(c, mi, global) && Unbeaten(c, next, mi, local))
      && (forall c :: c in r.0.value ==> r.1[(next, s.cheated)] == s.length + 1)
  {
    var next := Add(s.position, d);
    var cands := [PlainStep(s, next, end)];
    assert Independent(cands);
    SiftIndependent(cands, next, mi, local, global);
  }

  /** A step onto a wall without a cheat yet yields exactly the cheat states
      for the landable endpoints that pass both tests: each ends on its
      endpoint, is longer by the endpoint's distance from `s`, and records
      the cheat (wall, endpoint). */
  lemma ExploreCheatJump(g: Grid<char>, s: State, end: Point, d: Point, distanceCheat: nat, endpoints: seq<Point>,
                         mi: nat, local: map<(Point, Cheat), nat>, global: map<Cheat, nat>)
    requires Rectangular(g) && distanceCheat >= 1
    requires forall q :: q in endpoints <==> Landable(g, Add(s.position, d), distanceCheat - 1, q)
    requires forall i, j :: 0 <= i < j < |endpoints| ==> endpoints[i] != endpoints[j]
    requires CharAt(g, Add(s.position, d)) == Some('#') && s.cheated.None?
    ensures var r := Explore(g, s, end, d, distanceCheat, endpoints, mi, local, global);
      var wall := Add(s.position, d);
      && r.0.Some?
      && (forall c :: c in r.0.value ==>
            Landable(g, wall, distanceCheat - 1, c.position)
            && c == State(c.position, s.length + Manhattan(s.position, c.position), Some((wall, c.position)),
                          Manhattan(c.position, end))
            && r.1[(wall, c.cheated)] == c.length)
      && (forall e :: Landable(g, wall, distanceCheat - 1, e) ==>
            (CheatStep(s, wall, e, end) in r.0.value <==>
               Promising(CheatStep(s, wall, e, end), mi, global) && Unbeaten(CheatStep(s, wall, e, end), wall, mi, local)))
  {
    var wall := Add(s.position, d);
    var cands := CheatSteps(s, wall, endpoints, end);
    assert Independent(cands) by {
      forall i, j | 0 <= i < j < |cands| ensures cands[i].cheated != cands[j].cheated {
        assert endpoints[i] != endpoints[j];
      }
    }
    SiftIndependent(cands, wall, mi, local, global);
    forall e | Landable(g, wall, distanceCheat - 1, e)
      ensures CheatStep(s, wall, e, end) in cands
    {
      assert e in endpoints;
      var i :| 0 <= i < |endpoints| && endpoints[i] == e;
      assert cands[i] == CheatStep(s, wall, e, end);
    }
    forall c | c in cands
      ensures Landable(g, wall, distanceCheat - 1, c.position) && c == CheatStep(s, wall, c.position, end)
    {
      var i :| 0 <= i < |cands| && cands[i] == c;
      assert endpoints[i] in endpoints;
    }
  }

  /** No record says how long an uncheated run to a wall cell is. */
  predicate NoWallRecords(g: Grid<char>, local: map<(Point, Cheat), nat>)
    requires Rectangular(g)
  {
    forall k :: k in local && k.1.None? ==> CharAt(g, k.0) != Some('#')
  }

  /** Exploring never records an uncheated run at a wall: the only
      uncheated key it writes is the free cell stepped onto. */
  lemma ExploreKeepsNoWallRecords(g: Grid<char>, s: State, end: Point, d: Point, distanceCheat: nat,
                                  endpoints: seq<Point>, mi: nat, local: map<(Point, Cheat), nat>,
                                  global: map<Cheat, nat>)
    requires Rectangular(g) && distanceCheat >= 1
    requires forall q :: q in endpoints <==> Landable(g, Add(s.position, d), distanceCheat - 1, q)
    requires forall i, j :: 0 <= i < j < |endpoints| ==> endpoints[i] != endpoints[j]
    requires NoWallRecords(g, local)
    ensures NoWallRecords(g, Explore(g, s, end, d, distanceCheat, endpoints, mi, local, global).1)
  {
    var next := Add(s.position, d);
    var r := Explore(g, s, end, d, distanceCheat, endpoints, mi, local, global);
    if CharAt(g, next) == Some('#') && s.cheated.None? {
      var cands := CheatSteps(s, next, endpoints, end);
      var sifted := Sift(cands, next, mi, local, global);
      forall k | k in KeysAt(next, sifted.0) ensures k.1.Some? {
        var c :| c in sifted.0 && k == (next, c.cheated);
        var i :| 0 <= i < |cands| && cands[i] == c;
      }
    }
  }

  /** Consequently the second local test, which looks up the uncheated
      record at the wall cell rather than at the cheat's endpoint, never
      rejects a cheat: only the record under the cheat's own key counts. */
  lemma CheatLocalTestIsVacuous(g: Grid<char>, c: State, wall: Point, mi: nat, local: map<(Point, Cheat), nat>)
    requires Rectangular(g) && NoWallRecords(g, local)
    requires CharAt(g, wall) == Some('#')
    ensures Unbeaten(c, wall, mi, local) <==> !Exceeds(local, (wall, c.cheated), c.length)
  {
  }

  // ---------------------------------------------------------------------
  // The local test as intended: records looked up at the cheat's endpoint.

  /** The `for state in states_to_check` loop with both records looked up,
      and the length recorded, at the candidate's own cell instead of at the
      cell stepped onto. For a step onto a free cell the two coincide; for a
      cheat the own cell is the endpoint, where an uncheated run may have
      been recorded. */
  function SiftAtOwnCell(cands: seq<State>, mi: nat, local: map<(Point, Cheat), nat>,
                         global: map<Cheat, nat>): (r: (seq<State>, map<(Point, Cheat), nat>))
    ensures forall c :: c in r.0 ==> c in cands && Promising(c, mi, global)
    ensures forall k :: k in local ==> k in r.1 && r.1[k] <= local[k]
    ensures forall k :: k in local && k !in OwnKeys(cands) ==> r.1[k] == local[k]
    decreases |cands|
  {
    if cands == [] then ([], local)
    else
      var c := cands[0];
      assert forall x :: x in cands[1..] ==> x in cands;
      assert OwnKeys(cands) == {(c.position, c.cheated)} + OwnKeys(cands[1..]);
      if !Promising(c, mi, global) || !Unbeaten(c, c.position, mi, local) then
        SiftAtOwnCell(cands[1..], mi, local, global)
      else
        var rest := SiftAtOwnCell(cands[1..], mi, local[(c.position, c.cheated) := c.length], global);
        ([c] + rest.0, rest.1)
  }

  /** The keys the candidates would be recorded under at their own cells. */
  function OwnKeys(cands: seq<State>): set<(Point, Cheat)>
  {
    set c | c in cands :: (c.position, c.cheated)
  }

  /** Recording one candidate at its own cell does not change the own-cell
      test for another candidate with a different cheat, as long as a
      cheating candidate was not preceded by an uncheated one. */
  lemma RecordOwnLeavesOthers(x: State, c: State, mi: nat, local: map<(Point, Cheat), nat>)
    requires x.cheated != c.cheated && (x.cheated.Some? ==> c.cheated.Some?)
    ensures Unbeaten(x, x.position, mi, local[(c.position, c.cheated) := c.length])
            <==> Unbeaten(x, x.position, mi, local)
  {
  }

  /** For independent candidates a candidate is kept exactly when it passes
      the global test and the own-cell test against the records as they were
      before the loop, and its length is then recorded at its own cell. */
  lemma {:induction false} SiftAtOwnCellIndependent(cands: seq<State>, mi: nat,
                                                    local: map<(Point, Cheat), nat>, global: map<Cheat, nat>)
    requires Independent(cands)
    ensures var r := SiftAtOwnCell(cands, mi, local, global);
      && (forall c :: c in r.0 <==> c in cands && Promising(c, mi, global) && Unbeaten(c, c.position, mi, local))
      && (forall c :: c in r.0 ==> (c.position, c.cheated) in r.1 && r.1[(c.position, c.cheated)] == c.length)
    decreases |cands|
  {
    if cands != [] {
      var c := cands[0];
      var tail := cands[1..];
      IndependentTail(cands);
      assert forall x :: x in cands <==> x == c || x in tail;
      if !Promising(c, mi, global) || !Unbeaten(c, c.position, mi, local) {
        SiftAtOwnCellIndependent(tail, mi, local, global);
      } else {
        var local' := local[(c.position, c.cheated) := c.length];
        SiftAtOwnCellIndependent(tail, mi, local', global);
        forall x | x in tail
          ensures Unbeaten(x, x.position, mi, local') <==> Unbeaten(x, x.position, mi, local)
        {
          RecordOwnLeavesOthers(x, c, mi, local);
        }
        assert (c.position, c.cheated) !in OwnKeys(tail);
      }
    }
  }

  /** `explore_if_feasible` with the local test keyed on the candidate's own
      cell: the same as `Explore`, except that the cheats are sifted at
      their endpoints. */
  function ExploreAtOwnCell(g: Grid<char>, s: State, end: Point, d: Point, distanceCheat: nat, endpoints: seq<Point>,
                            mi: nat, local: map<(Point, Cheat), nat>, global: map<Cheat, nat>)
    : (r: (Option<seq<State>>, map<(Point, Cheat), nat>))
    requires Rectangular(g) && distanceCheat >= 1
    requires forall q :: q in endpoints <==> Landable(g, Add(s.position, d), distanceCheat - 1, q)
    requires forall i, j :: 0 <= i < j < |endpoints| ==> endpoints[i] != endpoints[j]
    ensures r.0.None? <==> CharAt(g, Add(s.position, d)) == Some('#') && s.cheated.Some?
    ensures forall k :: k in local ==> k in r.1 && r.1[k] <= local[k]
  {
    var next := Add(s.position, d);
    if CharAt(g, next) == Some('#') then
      if s.cheated.Some? then (None, local)
      else
        var sifted := SiftAtOwnCell(CheatSteps(s, next, endpoints, end), mi, local, global);
        (Some(sifted.0), sifted.1)
    else
      var sifted := SiftAtOwnCell([PlainStep(s, next, end)], mi, local, global);
      (Some(sifted.0), sifted.1)
  }

  /** With the intended keys, a cheat through a wall is kept exactly when it
      passes the global test and neither its own record at its endpoint nor
      the uncheated record there, less the saving `mi`, beats it. */
  lemma ExploreAtOwnCellCheatJump(g: Grid<char>, s: State, end: Point, d: Point, distanceCheat: nat,
                                  endpoints: seq<Point>, mi: nat, local: map<(Point, Cheat), nat>,
                                  global: map<Cheat, nat>)
    requires Rectangular(g) && distanceCheat >= 1
    requires forall q :: q in endpoints <==> Landable(g, Add(s.position, d), distanceCheat - 1, q)
    requires forall i, j :: 0 <= i < j < |endpoints| ==> endpoints[i] != endpoints[j]
    requires CharAt(g, Add(s.position, d)) == Some('#') && s.cheated.None?
    ensures var r := ExploreAtOwnCell(g, s, end, d, distanceCheat, endpoints, mi, local, global);
      var wall := Add(s.position, d);
      && r.0.Some?
      && (forall e :: Landable(g, wall, distanceCheat - 1, e) ==>
            var c := CheatStep(s, wall, e, end);
            (c in r.0.value <==>
               && Promising(c, mi, global)
               && !Exceeds(local, (e, c.cheated), c.length)
               && !Exceeds(local, (e, None), c.length + mi)))
  {
    var wall := Add(s.position, d);
    var cands := CheatSteps(s, wall, endpoints, end);
    assert Independent(cands) by {
      forall i, j | 0 <= i < j < |cands| ensures cands[i].cheated != cands[j].cheated {
        assert endpoints[i] != endpoints[j];
      }
    }
    SiftAtOwnCellIndependent(cands, mi, local, global);
    forall e | Landable(g, wall, distanceCheat - 1, e)
      ensures CheatStep(s, wall, e, end) in cands
    {
      assert e in endpoints;
      var i :| 0 <= i < |endpoints| && endpoints[i] == e;
      assert cands[i] == CheatStep(s, wall, e, end);
    }
  }

  /** The difference the keys make: a cheat landing where an uncheated run
      arrived more than `mi` sooner passes the test as written, which looks
      at the wall, but fails the test at its endpoint. */
  lemma EndpointRecordPrunesOnlyAtOwnCell(g: Grid<char>, c: State, wall: Point, mi: nat,
                                          local: map<(Point, Cheat), nat>)
    requires Rectangular(g) && NoWallRecords(g, local)
    requires CharAt(g, wall) == Some('#') && c.cheated.Some?
    requires (wall, c.cheated) !in local
    requires (c.position, None) in local && local[(c.position, None)] < c.length + mi
    ensures Unbeaten(c, wall, mi, local)
    ensures !Unbeaten(c, c.position, mi, local)
  {
    CheatLocalTestIsVacuous(g, c, wall, mi, local);
  }

  // ---------------------------------------------------------------------
  // Finished runs and the answer

  /** A popped state on the end cell lowers its cheat's best finished run
      to its length. */
  function RecordGoal(global: map<Cheat, nat>, cheated: Cheat, length: nat): (r: map<Cheat, nat>)
    ensures r.Keys == global.Keys + {cheated}
    ensures r[cheated] <= length && (cheated in global ==> r[cheated] <= global[cheated])
    ensures r[cheated] == length || (cheated in global && r[cheated] == global[cheated])
    ensures forall k :: k in global && k != cheated ==> r[k] == global[k]
  {
    if cheated in global && global[cheated] < length then global else global[cheated := length]
  }

  /** The cheats whose best run is at least `Saving` shorter than `normal`. */
  function Savers(global: map<Cheat, nat>, normal: nat): set<Cheat>
  {
    set k | k in global && global[k] + Saving <= normal
  }

  /** The final count in `solve`: `None` where the Rust code panics because
      no run without a cheat finished, otherwise the number of recorded
      cheats that save at least `Saving`. */
  method CountSavers(global: map<Cheat, nat>) returns (r: Option<nat>)
    ensures r.None? <==> None !in global
    ensures r.Some? ==> r.value == |Savers(global, global[None])|
  {
    if None !in global {
      return None;
    }
    var normal := global[None];
    var todo := global.Keys;
    var count := 0;
    while todo != {}
      invariant todo <= global.Keys
      invariant count == |Savers(global, normal) - todo|
      decreases |todo|
    {
      var k :| k in todo;
      var before := Savers(global, normal) - todo;
      if global[k] + Saving <= normal {
        assert Savers(global, normal) - (todo - {k}) == before + {k};
        count := count + 1;
      } else {
        assert Savers(global, normal) - (todo - {k}) == before;
      }
      todo := todo - {k};
    }
    r := Some(count);
  }

  /** The run without a cheat is never among the savers, so the answer is
      below the number of recorded keys. */
  lemma SaversExcludeNoCheat(global: map<Cheat, nat>)
    requires None in global
    ensures None !in Savers(global, global[None])
    ensures |Savers(global, global[None])| < |global.Keys|
  {
    var s := Savers(global, global[None]);
    assert s <= global.Keys - {None};
    var others := global.Keys - {None};
    assert |others| == |global.Keys| - 1;
    assert s + (others - s) == others && s !! (others - s);
  }
}
