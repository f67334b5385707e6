/** Day 15: a robot walks a warehouse of walls and boxes. Each instruction
    moves the robot one cell; the contiguous run of boxes in front of it is
    pushed along unless the first cell after the run is a wall, in which
    case nothing moves. The answer sums the boxes' GPS coordinates. */
module WarehouseWoes {
  import opened Wrappers
  import opened Geometry
  import opened Grids

  datatype Warehouse = Warehouse(boxes: set<Point>, walls: set<Point>, robot: Point)

  /** The assertion of `char_at`, for every cell: no cell holds two of the
      robot, a wall and a box. */
  predicate Separate(w: Warehouse)
  {
    w.robot !in w.walls && w.robot !in w.boxes && w.boxes !! w.walls
  }

  /** The offset of an instruction; `None` where the Rust code panics. */
  function Direction(instruction: char): (r: Option<Point>)
    ensures r.Some? <==> instruction in "^v<>"
    ensures r.Some? ==> IsUnit(r.value)
  {
    match instruction
    case '^' => Some(Point(0, -1))
    case 'v' => Some(Point(0, 1))
    case '>' => Some(Point(1, 0))
    case '<' => Some(Point(-1, 0))
    case _ => None
  }

  /** Distinct numbers of unit steps from one point end at distinct
      points. */
  lemma RayInjective(p: Point, d: Point, i: int, j: int)
    requires IsUnit(d) && i != j
    ensures Ray(p, d, i) != Ray(p, d, j)
  {
    UnitCases(d);
    if d.x == 0 {
      assert i * d.y != j * d.y;
    } else {
      assert i * d.x != j * d.x;
    }
  }

  /** The cells 1 to `k` steps ahead of `p` along `d`. */
  function Ahead(p: Point, d: Point, k: nat): (r: set<Point>)
    ensures forall i :: 1 <= i <= k ==> Ray(p, d, i) in r
    ensures forall q :: q in r ==> exists i :: 1 <= i <= k && q == Ray(p, d, i)
  {
    set i | 1 <= i <= k :: Ray(p, d, i)
  }

  lemma AheadGrows(p: Point, d: Point, k: nat)
    requires IsUnit(d)
    ensures Ahead(p, d, k + 1) == Ahead(p, d, k) + {Ray(p, d, k + 1)}
    ensures Ray(p, d, k + 1) !in Ahead(p, d, k)
  {
    forall q | q in Ahead(p, d, k) ensures q != Ray(p, d, k + 1) {
      var i :| 1 <= i <= k && q == Ray(p, d, i);
      RayInjective(p, d, i, k + 1);
    }
  }

  /** The cells 1 to `k` steps ahead of the robot hold boxes. */
  predicate Covered(w: Warehouse, d: Point, k: nat)
  {
    forall i :: 1 <= i <= k ==> Ray(w.robot, d, i) in w.boxes
  }

  /** One more box in front of the robot lengthens the covered run and
      leaves fewer boxes to scan. */
  lemma RunGrows(w: Warehouse, d: Point, k: nat)
    requires IsUnit(d) && Covered(w, d, k) && Ray(w.robot, d, k + 1) in w.boxes
    ensures Covered(w, d, k + 1)
    ensures |w.boxes - Ahead(w.robot, d, k + 1)| < |w.boxes - Ahead(w.robot, d, k)|
  {
    AheadGrows(w.robot, d, k);
    FewerLeft(w.boxes, Ahead(w.robot, d, k), Ahead(w.robot, d, k + 1));
  }

  /** Exactly `k` boxes lie in front of the robot: the cells 1 to `k` steps
      ahead hold boxes and the next one does not. */
  predicate IsRun(w: Warehouse, d: Point, k: nat)
  {
    Covered(w, d, k) && Ray(w.robot, d, k + 1) !in w.boxes
  }

  /** The run in front of the robot has one length only. */
  lemma RunUnique(w: Warehouse, d: Point, k: nat, k': nat)
    requires IsRun(w, d, k) && IsRun(w, d, k')
    ensures k == k'
  {
  }

  /** The length of the run of boxes in front of the robot, knowing that
      the first `k` cells hold boxes. The boxes are finitely many, so the
      run ends. */
  function RunLength(w: Warehouse, d: Point, k: nat): (r: nat)
    requires IsUnit(d) && Covered(w, d, k)
    ensures k <= r && IsRun(w, d, r)
    decreases |w.boxes - Ahead(w.robot, d, k)|
  {
    if Ray(w.robot, d, k + 1) in w.boxes then
      RunGrows(w, d, k);
      RunLength(w, d, k + 1)
    else k
  }

  /** Every point of `s` moved by `d`. */
  function Shift(s: set<Point>, d: Point): set<Point>
  {
    set p | p in s :: Add(p, d)
  }

  /** A point is in the shifted set exactly when the point it came from is
      in the original one. */
  lemma ShiftMember(s: set<Point>, d: Point, q: Point)
    ensures q in Shift(s, d) <==> Minus(q, d) in s
  {
    assert Add(Minus(q, d), d) == q;
  }

  /** The warehouse after the run of `k` boxes and the robot move one cell
      along `d`: the run is removed and re-inserted one cell further. */
  function Pushed(w: Warehouse, d: Point, k: nat): Warehouse
  {
    var run := Ahead(w.robot, d, k);
    Warehouse((w.boxes - run) + Shift(run, d), w.walls, Add(w.robot, d))
  }

  /** `do_step` as a function: `None` for an unknown instruction; the same
      warehouse when a wall ends the run of boxes; otherwise the pushed
      warehouse. */
  function Step(w: Warehouse, instruction: char): (r: Option<Warehouse>)
    ensures r.Some? <==> instruction in "^v<>"
    ensures r.Some? ==> r.value.walls == w.walls
  {
    var d := Direction(instruction);
    if d.None? then None
    else
      var k := RunLength(w, d.value, 0);
      if Ray(w.robot, d.value, k + 1) in w.walls then Some(w)
      else Some(Pushed(w, d.value, k))
  }

  /** A wall right after the run of boxes blocks the move: nothing
      changes. Otherwise the robot steps one cell along the instruction. */
  lemma StepMoves(w: Warehouse, instruction: char, k: nat)
    requires instruction in "^v<>" && IsRun(w, Direction(instruction).value, k)
    ensures var d := Direction(instruction).value;
            && (Ray(w.robot, d, k + 1) in w.walls ==> Step(w, instruction) == Some(w))
            && (Ray(w.robot, d, k + 1) !in w.walls ==> Step(w, instruction).value.robot == Add(w.robot, d))
  {
    var d := Direction(instruction).value;
    RunUnique(w, d, k, RunLength(w, d, 0));
  }

  /** A push moves the run of boxes and nothing else: a cell outside the
      run and the cell beyond it keeps its content, the first box of the
      run leaves its cell, and a box appears right after the run. */
  lemma PushMovesOnlyRun(w: Warehouse, d: Point, k: nat)
    requires IsUnit(d) && IsRun(w, d, k) && k > 0
    ensures Pushed(w, d, k).boxes == w.boxes - {Ray(w.robot, d, 1)} + {Ray(w.robot, d, k + 1)}
  {
    var run := Ahead(w.robot, d, k);
    var after := Pushed(w, d, k).boxes;
    forall i | 1 <= i <= k ensures Add(Ray(w.robot, d, i), d) == Ray(w.robot, d, i + 1) {
      RayStep(w.robot, d, i);
    }
    forall q | q in after ensures q in w.boxes - {Ray(w.robot, d, 1)} + {Ray(w.robot, d, k + 1)} {
      if q !in w.boxes - run {
        var p :| p in run && q == Add(p, d);
        var i :| 1 <= i <= k && p == Ray(w.robot, d, i);
        if i < k {
          RayInjective(w.robot, d, i + 1, 1);
        }
      }
    }
    forall q | q in w.boxes - {Ray(w.robot, d, 1)} + {Ray(w.robot, d, k + 1)} ensures q in after {
      if q in run {
        var i :| 1 <= i <= k && q == Ray(w.robot, d, i);
        RayInjective(w.robot, d, i, 1);
        assert Add(Ray(w.robot, d, i - 1), d) == q by {
          RayStep(w.robot, d, i - 1);
        }
        assert Ray(w.robot, d, i - 1) in run;
      } else if q == Ray(w.robot, d, k + 1) {
        assert Ray(w.robot, d, k) in run;
      }
    }
  }

  /** A push keeps the robot, the walls and the boxes apart: the boxes land
      on the cells the run vacates and on the free cell after it, and the
      robot on the first cell of the run (or that free cell). */
  lemma PushKeepsSeparate(w: Warehouse, d: Point, k: nat)
    requires Separate(w) && IsUnit(d) && IsRun(w, d, k) && Ray(w.robot, d, k + 1) !in w.walls
    ensures Separate(Pushed(w, d, k))
    ensures |Pushed(w, d, k).boxes| == |w.boxes|
  {
    var a, b := Ray(w.robot, d, 1), Ray(w.robot, d, k + 1);
    assert Add(w.robot, d) == a by {
      RayStep(w.robot, d, 0);
    }
    if k == 0 {
      assert Ahead(w.robot, d, 0) == {};
      assert Pushed(w, d, k) == w.(robot := a);
    } else {
      PushMovesOnlyRun(w, d, k);
      RayInjective(w.robot, d, 1, k + 1);
      SwapKeepsSeparate(w, a, b);
      assert Pushed(w, d, k) == Warehouse(w.boxes - {a} + {b}, w.walls, a);
    }
  }

  /** The box on `a` moved to the free cell `b`, and the robot onto `a`. */
  lemma SwapKeepsSeparate(w: Warehouse, a: Point, b: Point)
    requires Separate(w) && a in w.boxes && b !in w.boxes && b !in w.walls && a != b
    ensures Separate(Warehouse(w.boxes - {a} + {b}, w.walls, a))
    ensures |w.boxes - {a} + {b}| == |w.boxes|
  {
    assert |w.boxes - {a}| == |w.boxes| - 1;
  }

  /** An unknown instruction, or a step from a separated warehouse, keeps
      it separated, with as many boxes as before. */
  lemma StepKeepsSeparate(w: Warehouse, instruction: char)
    requires Separate(w) && Step(w, instruction).Some?
    ensures Separate(Step(w, instruction).value)
    ensures |Step(w, instruction).value.boxes| == |w.boxes|
  {
    var d := Direction(instruction).value;
    var k := RunLength(w, d, 0);
    if Ray(w.robot, d, k + 1) !in w.walls {
      PushKeepsSeparate(w, d, k);
    }
  }

  /** The cells a scan of `do_step` collected: the `|effected|` cells in
      front of the robot, in order. */
  predicate Scanned(w: Warehouse, d: Point, effected: seq<Point>)
  {
    forall i :: 0 <= i < |effected| ==> effected[i] == Ray(w.robot, d, i + 1)
  }

  /** One more box found by the scan. */
  lemma ScanGrows(w: Warehouse, d: Point, effected: seq<Point>, next: Point)
    requires IsUnit(d) && Scanned(w, d, effected) && Covered(w, d, |effected|)
    requires next == Ray(w.robot, d, |effected| + 1) && next in w.boxes
    ensures Scanned(w, d, effected + [next]) && Covered(w, d, |effected| + 1)
    ensures Add(next, d) == Ray(w.robot, d, |effected| + 2)
    ensures |w.boxes - Ahead(w.robot, d, |effected| + 1)| < |w.boxes - Ahead(w.robot, d, |effected|)|
  {
    RunGrows(w, d, |effected|);
    RayStep(w.robot, d, |effected| + 1);
  }

  lemma StepUnfolds(w: Warehouse, instruction: char)
    requires instruction in "^v<>"
    ensures var d := Direction(instruction).value;
            var k := RunLength(w, d, 0);
            Step(w, instruction) == if Ray(w.robot, d, k + 1) in w.walls then Some(w) else Some(Pushed(w, d, k))
  {
  }

  /** A finished scan holds exactly the run of boxes, and moving its cells
      one step moves the run. */
  lemma ScanEnds(w: Warehouse, d: Point, effected: seq<Point>)
    requires IsUnit(d) && Scanned(w, d, effected) && IsRun(w, d, |effected|)
    ensures RunLength(w, d, 0) == |effected|
    ensures (set b | b in effected) == Ahead(w.robot, d, |effected|)
    ensures (set b | b in effected :: Add(b, d)) == Shift(Ahead(w.robot, d, |effected|), d)
  {
    RunUnique(w, d, |effected|, RunLength(w, d, 0));
    var run := set b | b in effected;
    forall q | q in Ahead(w.robot, d, |effected|) ensures q in run {
      var i :| 1 <= i <= |effected| && q == Ray(w.robot, d, i);
      assert effected[i - 1] == q;
    }
  }

  /** `do_step`: scan from the robot along the instruction over the boxes
      in its way; stop on a wall, or move the scanned boxes and the robot
      on reaching a free cell. The robot's own cell is never scanned, so the
      panic on an unknown map character cannot happen. */
  method DoStep(w: Warehouse, instruction: char) returns (r: Option<Warehouse>)
    requires Separate(w)
    ensures r == Step(w, instruction)
  {
    var dxdy := Direction(instruction);
    if dxdy.None? {
      return None;
    }
    var d := dxdy.value;
    var effected: seq<Point> := [];
    var next := Add(w.robot, d);
    RayStep(w.robot, d, 0);
    while next in w.boxes
      invariant next == Ray(w.robot, d, |effected| + 1)
      invariant Scanned(w, d, effected) && Covered(w, d, |effected|)
      decreases |w.boxes - Ahead(w.robot, d, |effected|)|
    {
      ScanGrows(w, d, effected, next);
      effected := effected + [next];
      next := Add(next, d);
    }
    ScanEnds(w, d, effected);
    StepUnfolds(w, instruction);
    if next in w.walls {
      return Some(w);
    }
    var boxes := (w.boxes - set b | b in effected) + set b | b in effected :: Add(b, d);
    return Some(Warehouse(boxes, w.walls, Add(w.robot, d)));
  }

  /** `run_instructions`: the instructions in order; `None` if any is
      unknown. */
  function RunInstructions(w: Warehouse, instructions: seq<char>): (r: Option<Warehouse>)
    ensures r.Some? <==> forall i :: 0 <= i < |instructions| ==> instructions[i] in "^v<>"
    decreases |instructions|
  {
    if |instructions| == 0 then Some(w)
    else
      var next := Step(w, instructions[0]);
      if next.None? then None
      else
        var r := RunInstructions(next.value, instructions[1..]);
        assert forall i :: 1 <= i < |instructions| ==> instructions[i] == instructions[1..][i - 1];
        r
  }

  /** A whole run keeps the warehouse separated and the number of boxes. */
  lemma {:induction false} RunKeepsSeparate(w: Warehouse, instructions: seq<char>)
    requires Separate(w) && RunInstructions(w, instructions).Some?
    ensures Separate(RunInstructions(w, instructions).value)
    ensures |RunInstructions(w, instructions).value.boxes| == |w.boxes|
    decreases |instructions|
  {
    if |instructions| > 0 {
      StepKeepsSeparate(w, instructions[0]);
      RunKeepsSeparate(Step(w, instructions[0]).value, instructions[1..]);
    }
  }

  // ---------------------------------------------------------------------
  // GPS coordinates.

  /** A box's GPS coordinate: 100 times its row plus its column. */
  function Gps(p: Point): int
  {
    100 * p.y + p.x
  }

  ghost function Pick(s: set<Point>): (r: Point)
    requires s != {}
    ensures r in s
  {
    var p :| p in s; p
  }

  /** The sum of the GPS coordinates over a set of boxes. */
  ghost function GpsSum(s: set<Point>): int
    decreases |s|
  {
    if s == {} then 0 else Gps(Pick(s)) + GpsSum(s - {Pick(s)})
  }

  /** The sum does not depend on the order the boxes are taken in. */
  lemma {:induction false} GpsSumRemove(s: set<Point>, p: Point)
    requires p in s
    ensures GpsSum(s) == Gps(p) + GpsSum(s - {p})
    decreases |s|
  {
    var q := Pick(s);
    if q != p {
      GpsSumRemove(s - {q}, p);
      GpsSumRemove(s - {p}, q);
      assert s - {q} - {p} == s - {p} - {q};
    }
  }

  /** `sum_of_gps_coordinates`: the GPS sum over the boxes, taken in any
      order. */
  method SumOfGps(boxes: set<Point>) returns (total: int)
    ensures total == GpsSum(boxes)
  {
    total := 0;
    var rest := boxes;
    while rest != {}
      invariant total + GpsSum(rest) == GpsSum(boxes)
      decreases |rest|
    {
      var p :| p in rest;
      GpsSumRemove(rest, p);
      total := total + Gps(p);
      rest := rest - {p};
    }
  }
}
