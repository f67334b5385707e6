/** Day 15, part 2: the same warehouse drawn twice as wide. Every box now
    takes two cells, a left half `[` and a right half `]`; a push spreads
    breadth-first from the robot through every box half it touches, and
    nothing moves if any touched cell is a wall. */
module WideWarehouse {
  import opened Wrappers
  import opened Geometry
  import W = WarehouseWoes

  /** The offset from a box's left half to its right half. */
  const Across: Point := Point(1, 0)

  datatype Wide = Wide(lefts: set<Point>, rights: set<Point>, walls: set<Point>, robot: Point)

  /** A cell holds a left half exactly when the cell to its right holds a
      right half: the right halves are the left halves moved one cell
      right. */
  predicate Paired(w: Wide)
  {
    w.rights == W.Shift(w.lefts, Across)
  }

  lemma ShiftDiff(s: set<Point>, t: set<Point>, d: Point)
    ensures W.Shift(s - t, d) == W.Shift(s, d) - W.Shift(t, d)
  {
    forall q ensures q in W.Shift(s - t, d) <==> q in W.Shift(s, d) - W.Shift(t, d) {
      W.ShiftMember(s - t, d, q);
      W.ShiftMember(s, d, q);
      W.ShiftMember(t, d, q);
    }
  }

  lemma ShiftUnion(s: set<Point>, t: set<Point>, d: Point)
    ensures W.Shift(s + t, d) == W.Shift(s, d) + W.Shift(t, d)
  {
    forall q ensures q in W.Shift(s + t, d) <==> q in W.Shift(s, d) + W.Shift(t, d) {
      W.ShiftMember(s + t, d, q);
      W.ShiftMember(s, d, q);
      W.ShiftMember(t, d, q);
    }
  }

  lemma ShiftCommute(s: set<Point>, d: Point, e: Point)
    ensures W.Shift(W.Shift(s, d), e) == W.Shift(W.Shift(s, e), d)
  {
    forall q | q in W.Shift(W.Shift(s, d), e) ensures q in W.Shift(W.Shift(s, e), d) {
      ShiftBack(s, d, e, q);
    }
    forall q | q in W.Shift(W.Shift(s, e), d) ensures q in W.Shift(W.Shift(s, d), e) {
      ShiftBack(s, e, d, q);
    }
  }

  lemma ShiftBack(s: set<Point>, d: Point, e: Point, q: Point)
    requires q in W.Shift(W.Shift(s, d), e)
    ensures q in W.Shift(W.Shift(s, e), d)
  {
    W.ShiftMember(W.Shift(s, d), e, q);
    W.ShiftMember(s, d, Minus(q, e));
    var p := Minus(Minus(q, e), d);
    assert p in s;
    assert Add(p, e) in W.Shift(s, e);
    assert q == Add(Add(p, e), d);
  }

  /** The assertion of `char_at`, for every cell: no cell holds two of the
      robot, a wall, a left half and a right half. */
  predicate Separate(w: Wide)
  {
    && w.robot !in w.walls && w.robot !in w.lefts && w.robot !in w.rights
    && w.lefts !! w.walls && w.rights !! w.walls && w.lefts !! w.rights
  }

  // ---------------------------------------------------------------------
  // Parsing: the width doubles.

  /** The wide cell of narrow cell `p`: `offset` 0 is the left one, 1 the
      right one. */
  function Double(p: Point, offset: int): Point
  {
    Point(2 * p.x + offset, p.y)
  }

  /** `read_input` of part 2, from the narrow map: a box becomes a left half
      and a right half, a wall fills both cells, and the robot stands on
      the left cell. */
  function Widen(n: W.Warehouse): (r: Wide)
    ensures forall p :: p in n.boxes <==> Double(p, 0) in r.lefts
    ensures forall p :: p in n.boxes <==> Double(p, 1) in r.rights
    ensures forall p :: p in n.walls <==> Double(p, 0) in r.walls
    ensures forall p :: p in n.walls <==> Double(p, 1) in r.walls
    ensures r.robot == Double(n.robot, 0)
  {
    Wide(set p | p in n.boxes :: Double(p, 0),
         set p | p in n.boxes :: Double(p, 1),
         (set p | p in n.walls :: Double(p, 0)) + (set p | p in n.walls :: Double(p, 1)),
         Double(n.robot, 0))
  }

  /** A separated narrow warehouse widens to a paired, separated wide
      one. */
  lemma WidenWellFormed(n: W.Warehouse)
    requires W.Separate(n)
    ensures Paired(Widen(n)) && Separate(Widen(n))
  {
    var r := Widen(n);
    forall q ensures q in r.rights <==> q in W.Shift(r.lefts, Across) {
      W.ShiftMember(r.lefts, Across, q);
      if q in r.rights {
        var b :| b in n.boxes && q == Double(b, 1);
        assert Minus(q, Across) == Double(b, 0);
      }
      if Minus(q, Across) in r.lefts {
        var b :| b in n.boxes && Minus(q, Across) == Double(b, 0);
        assert q == Double(b, 1);
      }
    }
  }

  // ---------------------------------------------------------------------
  // Pushing.

  /** The cells a box with left half `l` pushes into when it moves along
      `d`: the two cells ahead of it when the move is vertical, the cell
      beyond its far half when it is horizontal. */
  function Front(l: Point, d: Point): set<Point>
  {
    if d.x == 0 then {Add(l, d), Add(Add(l, Across), d)}
    else if d.x > 0 then {Add(Add(l, Across), d)}
    else {Add(l, d)}
  }

  /** A cell the push reaches: the one ahead of the robot, or one in front
      of a pushed box (given by its left half). */
  predicate Reached(w: Wide, d: Point, boxes: set<Point>, c: Point)
  {
    c == Add(w.robot, d) || exists l :: l in boxes && c in Front(l, d)
  }

  /** Pushed boxes are real boxes, and each of them is touched by the robot
      or by another pushed box. */
  predicate Pushable(w: Wide, d: Point, boxes: set<Point>)
  {
    && boxes <= w.lefts
    && forall l :: l in boxes ==> Reached(w, d, boxes, l) || Reached(w, d, boxes, Add(l, Across))
  }

  /** A reached cell that lets the push through: no wall, and a box half on
      it belongs to a pushed box. */
  predicate Cleared(w: Wide, boxes: set<Point>, c: Point)
  {
    c !in w.walls && (c in w.lefts ==> c in boxes) && (c in w.rights ==> Minus(c, Across) in boxes)
  }

  /** Every reached cell is cleared: the push goes through. */
  ghost predicate Closed(w: Wide, d: Point, boxes: set<Point>)
  {
    forall c :: Reached(w, d, boxes, c) ==> Cleared(w, boxes, c)
  }

  /** Some reached cell is a wall: the push is blocked. */
  ghost predicate Blocked(w: Wide, d: Point, boxes: set<Point>)
  {
    exists c :: Reached(w, d, boxes, c) && c in w.walls
  }

  /** The warehouse after the robot and the boxes with left halves in
      `boxes` all moved by `d`. */
  function Moved(w: Wide, d: Point, boxes: set<Point>): Wide
  {
    var rights := W.Shift(boxes, Across);
    Wide((w.lefts - boxes) + W.Shift(boxes, d), (w.rights - rights) + W.Shift(rights, d), w.walls, Add(w.robot, d))
  }

  /** Any move of whole boxes keeps the halves paired. */
  lemma MovedPaired(w: Wide, d: Point, boxes: set<Point>)
    requires Paired(w)
    ensures Paired(Moved(w, d, boxes))
  {
    var shifted := W.Shift(boxes, d);
    ShiftDiff(w.lefts, boxes, Across);
    ShiftUnion(w.lefts - boxes, shifted, Across);
    ShiftCommute(boxes, d, Across);
  }

  /** A push that goes through keeps every cell to one occupant: each moved
      half lands on a cell that is free, cleared, or vacated by the move. */
  lemma MovedSeparate(w: Wide, d: Point, boxes: set<Point>)
    requires Separate(w) && Paired(w) && IsUnit(d) && boxes <= w.lefts && Closed(w, d, boxes)
    ensures Separate(Moved(w, d, boxes))
  {
    assert Reached(w, d, boxes, Add(w.robot, d));
    ClosedFronts(w, d, boxes);
    MovedRobot(w, d, boxes);
    MovedLefts(w, d, boxes);
    MovedRights(w, d, boxes);
    MovedHalves(w, d, boxes);
  }

  /** The fronts of all pushed boxes are cleared. */
  predicate FrontsCleared(w: Wide, d: Point, boxes: set<Point>)
  {
    forall l, c :: l in boxes && c in Front(l, d) ==> Cleared(w, boxes, c)
  }

  lemma ClosedFronts(w: Wide, d: Point, boxes: set<Point>)
    requires Closed(w, d, boxes)
    ensures FrontsCleared(w, d, boxes)
  {
    forall l, c | l in boxes && c in Front(l, d) ensures Cleared(w, boxes, c) {
      assert Reached(w, d, boxes, c);
    }
  }

  lemma MovedRobot(w: Wide, d: Point, boxes: set<Point>)
    requires Separate(w) && Paired(w) && boxes <= w.lefts
    requires Cleared(w, boxes, Add(w.robot, d))
    ensures var m := Moved(w, d, boxes);
            m.robot !in m.walls && m.robot !in m.lefts && m.robot !in m.rights
  {
    var c := Add(w.robot, d);
    assert Minus(c, d) == w.robot;
    W.ShiftMember(boxes, d, c);
    var rights := W.Shift(boxes, Across);
    if c in w.rights {
      W.ShiftMember(boxes, Across, c);
    }
    W.ShiftMember(rights, d, c);
    W.ShiftMember(w.lefts, Across, w.robot);
    W.ShiftMember(boxes, Across, w.robot);
  }

  lemma MovedLefts(w: Wide, d: Point, boxes: set<Point>)
    requires Separate(w) && Paired(w) && IsUnit(d) && boxes <= w.lefts && FrontsCleared(w, d, boxes)
    ensures Moved(w, d, boxes).lefts !! w.walls
  {
    UnitCases(d);
    forall q | q in W.Shift(boxes, d) ensures q !in w.walls {
      W.ShiftMember(boxes, d, q);
      var l := Minus(q, d);
      assert q == Add(l, d);
      if d.x > 0 {
        assert q == Add(l, Across) && Add(l, Across) in w.rights;
      } else {
        assert q in Front(l, d);
        assert Cleared(w, boxes, q);
      }
      assert q !in w.walls;
    }
  }

  lemma MovedRights(w: Wide, d: Point, boxes: set<Point>)
    requires Separate(w) && Paired(w) && IsUnit(d) && boxes <= w.lefts && FrontsCleared(w, d, boxes)
    ensures Moved(w, d, boxes).rights !! w.walls
  {
    UnitCases(d);
    var rights := W.Shift(boxes, Across);
    forall q | q in W.Shift(rights, d) ensures q !in w.walls {
      W.ShiftMember(rights, d, q);
      W.ShiftMember(boxes, Across, Minus(q, d));
      var l := Minus(Minus(q, d), Across);
      assert q == Add(Add(l, Across), d);
      if d.x < 0 {
        assert q == l;
      } else {
        assert q in Front(l, d);
        assert Cleared(w, boxes, q);
      }
      assert q !in w.walls;
    }
  }

  lemma MovedHalves(w: Wide, d: Point, boxes: set<Point>)
    requires Separate(w) && Paired(w) && IsUnit(d) && boxes <= w.lefts && FrontsCleared(w, d, boxes)
    ensures Moved(w, d, boxes).lefts !! Moved(w, d, boxes).rights
  {
    var m := Moved(w, d, boxes);
    var rights := W.Shift(boxes, Across);
    UnitCases(d);
    forall p | p in m.lefts ensures p !in m.rights {
      W.ShiftMember(rights, d, p);
      W.ShiftMember(boxes, Across, Minus(p, d));
      W.ShiftMember(boxes, d, p);
      if p in W.Shift(boxes, d) {
        var l := Minus(p, d);
        W.ShiftMember(w.lefts, Across, l);
        assert l !in rights;
        W.ShiftMember(boxes, Across, p);
        if d.x > 0 {
          assert p == Add(l, Across);
        } else {
          assert p in Front(l, d);
          assert Cleared(w, boxes, p);
        }
        assert p !in w.rights - rights;
      } else {
        NotPushedOnto(w, d, boxes, p);
      }
    }
  }

  /** A left half that stays put is not the landing cell of a pushed box's
      right half. */
  lemma NotPushedOnto(w: Wide, d: Point, boxes: set<Point>, p: Point)
    requires IsUnit(d) && FrontsCleared(w, d, boxes) && p in w.lefts - boxes
    ensures Minus(Minus(p, d), Across) !in boxes
  {
    UnitCases(d);
    forall k | k in boxes ensures Add(Add(k, Across), d) != p {
      if d.x >= 0 {
        assert Add(Add(k, Across), d) in Front(k, d);
        assert Cleared(w, boxes, Add(Add(k, Across), d));
      } else {
        assert Add(Add(k, Across), d) == k;
      }
    }
    assert Add(Add(Minus(Minus(p, d), Across), Across), d) == p;
  }

  // ---------------------------------------------------------------------
  // The breadth-first push of `do_step`.

  /** How far `p` lies along the unit direction `d`. */
  function Along(p: Point, d: Point): int
  {
    if d == Point(1, 0) then p.x
    else if d == Point(-1, 0) then -p.x
    else if d == Point(0, 1) then p.y
    else -p.y
  }

  lemma AlongStep(p: Point, d: Point)
    requires IsUnit(d)
    ensures Along(Add(p, d), d) == Along(p, d) + 1
    ensures d.x == 0 ==> Along(Add(p, Across), d) == Along(p, d)
  {
    UnitCases(d);
  }

  /** An upper bound on how far the points of `s` lie along `d`. */
  ghost function Farthest(s: set<Point>, d: Point): (r: int)
    ensures forall p :: p in s ==> Along(p, d) <= r
    decreases |s|
  {
    if s == {} then 0
    else
      var p := W.Pick(s);
      var r := Farthest(s - {p}, d);
      if Along(p, d) > r then Along(p, d) else r
  }

  function Pow3(n: nat): (r: nat)
    ensures r >= 1
  {
    if n == 0 then 1 else 3 * Pow3(n - 1)
  }

  lemma {:induction false} Pow3Monotone(a: nat, b: nat)
    requires a <= b
    ensures Pow3(a) <= Pow3(b)
    decreases b
  {
    if a < b {
      Pow3Monotone(a, b - 1);
    }
  }

  /** How many more steps along `d` a cell can take before it passes every
      box: 0 beyond the bound `far`. */
  function Height(c: Point, d: Point, far: int): nat
  {
    if Along(c, d) > far then 0 else far + 1 - Along(c, d)
  }

  /** The termination measure of the push: popping a box half removes one
      cell of some height and adds at most two of smaller height. */
  function Weight(queue: seq<Point>, d: Point, far: int): nat
  {
    if |queue| == 0 then 0 else Pow3(Height(queue[0], d, far)) + Weight(queue[1..], d, far)
  }

  lemma {:induction false} WeightAppend(s: seq<Point>, t: seq<Point>, d: Point, far: int)
    ensures Weight(s + t, d, far) == Weight(s, d, far) + Weight(t, d, far)
    decreases |s|
  {
    if |s| > 0 {
      assert (s + t)[1..] == s[1..] + t;
      WeightAppend(s[1..], t, d, far);
    } else {
      assert s + t == t;
    }
  }

  /** At most two cells, none higher than `h`, weigh at most `2 * 3^h`. */
  lemma AddedWeight(added: seq<Point>, d: Point, far: int, h: nat)
    requires |added| <= 2
    requires forall i :: 0 <= i < |added| ==> Height(added[i], d, far) <= h
    ensures Weight(added, d, far) <= 2 * Pow3(h)
  {
    if |added| > 0 {
      Pow3Monotone(Height(added[0], d, far), h);
      assert Weight(added, d, far) == Pow3(Height(added[0], d, far)) + Weight(added[1..], d, far);
      if |added| == 2 {
        Pow3Monotone(Height(added[1], d, far), h);
        assert Weight(added[1..], d, far) == Pow3(Height(added[1], d, far)) + Weight(added[2..], d, far);
      }
    }
  }

  /** Popping a cell and adding at most two cells farther along `d`
      lowers the weight, as long as the popped cell lies within the
      bound. */
  lemma PopWeight(p: Point, rest: seq<Point>, added: seq<Point>, d: Point, far: int)
    requires Along(p, d) <= far && |added| <= 2
    requires forall i :: 0 <= i < |added| ==> Along(added[i], d) > Along(p, d)
    ensures Weight(rest + added, d, far) < Weight([p] + rest, d, far)
  {
    WeightAppend(rest, added, d, far);
    assert ([p] + rest)[1..] == rest;
    var h := Height(p, d, far);
    assert h >= 1;
    AddedWeight(added, d, far, h - 1);
    assert Pow3(h) == 3 * Pow3(h - 1);
  }

  /** The left halves of the boxes `do_step` collected. */
  function Lefts(effected: seq<(Point, Point)>): set<Point>
  {
    set b | b in effected :: b.0
  }

  lemma LeftsAppend(effected: seq<(Point, Point)>, b: (Point, Point))
    ensures Lefts(effected + [b]) == Lefts(effected) + {b.0}
  {
    assert b in effected + [b];
    forall x | x in Lefts(effected) ensures x in Lefts(effected + [b]) {
      var c :| c in effected && c.0 == x;
      assert c in effected + [b];
    }
  }

  /** Every queued cell is reached and lies ahead of the robot. */
  predicate InReach(w: Wide, d: Point, boxes: set<Point>, queue: seq<Point>)
  {
    forall i :: 0 <= i < |queue| ==> Reached(w, d, boxes, queue[i]) && Along(queue[i], d) > Along(w.robot, d)
  }

  /** Every reached cell is still queued or already cleared. */
  ghost predicate Pending(w: Wide, d: Point, boxes: set<Point>, queue: seq<Point>)
  {
    forall c :: Reached(w, d, boxes, c) ==> c in queue || Cleared(w, boxes, c)
  }

  /** A horizontal push only ever queues a cell next to the robot or to
      the near half of a box: the right half of one when pushing right,
      the left half of one when pushing left. */
  predicate Sided(w: Wide, d: Point, queue: seq<Point>)
  {
    && (d == Point(1, 0) ==> forall i :: 0 <= i < |queue| ==> Minus(queue[i], Across) == w.robot || Minus(queue[i], Across) in w.rights)
    && (d == Point(-1, 0) ==> forall i :: 0 <= i < |queue| ==> Add(queue[i], Across) == w.robot || Add(queue[i], Across) in w.lefts)
  }

  ghost predicate Frontier(w: Wide, d: Point, boxes: set<Point>, queue: seq<Point>)
  {
    InReach(w, d, boxes, queue) && Pending(w, d, boxes, queue) && Sided(w, d, queue)
  }

  /** The push starts with the cell ahead of the robot. */
  lemma FrontierStart(w: Wide, d: Point)
    requires IsUnit(d)
    ensures Frontier(w, d, {}, [Add(w.robot, d)])
  {
    UnitCases(d);
    AlongStep(w.robot, d);
  }

  /** Popping a free cell: it is cleared, and the weight drops. */
  lemma PopFree(w: Wide, d: Point, boxes: set<Point>, p: Point, rest: seq<Point>, far: int)
    requires Frontier(w, d, boxes, [p] + rest)
    requires p !in w.walls && p !in w.lefts && p !in w.rights
    ensures Frontier(w, d, boxes, rest)
    ensures Weight(rest, d, far) < Weight([p] + rest, d, far)
  {
    assert ([p] + rest)[1..] == rest;
    forall i | 0 <= i < |rest| ensures rest[i] == ([p] + rest)[i + 1] { }
    forall c | Reached(w, d, boxes, c) ensures c in rest || Cleared(w, boxes, c) {
      assert c in [p] + rest || Cleared(w, boxes, c);
    }
  }

  /** Popping a box half whose box has left half `l`: the box joins the
      pushed ones and the cells in front of it are queued. */
  lemma PopBox(w: Wide, d: Point, boxes: set<Point>, p: Point, rest: seq<Point>, l: Point, added: seq<Point>)
    requires Separate(w) && Paired(w) && IsUnit(d)
    requires Pushable(w, d, boxes) && Frontier(w, d, boxes, [p] + rest)
    requires l in w.lefts && (p == l || p == Add(l, Across))
    requires d == Point(1, 0) ==> p == l
    requires d == Point(-1, 0) ==> p == Add(l, Across)
    requires forall c :: c in Front(l, d) <==> c in added
    requires forall i :: 0 <= i < |added| ==> Along(added[i], d) > Along(p, d)
    ensures Pushable(w, d, boxes + {l}) && Frontier(w, d, boxes + {l}, rest + added)
  {
    var pushed := boxes + {l};
    assert ([p] + rest)[0] == p;
    assert Reached(w, d, boxes, p) && Along(p, d) > Along(w.robot, d);
    PopBoxReach(w, d, boxes, p, rest, l, added);
    PopBoxPending(w, d, boxes, p, rest, l, added);
    PopBoxSided(w, d, p, rest, l, added);
  }

  lemma PopBoxReach(w: Wide, d: Point, boxes: set<Point>, p: Point, rest: seq<Point>, l: Point, added: seq<Point>)
    requires Pushable(w, d, boxes) && InReach(w, d, boxes, [p] + rest)
    requires l in w.lefts && (p == l || p == Add(l, Across))
    requires forall c :: c in Front(l, d) <==> c in added
    requires forall i :: 0 <= i < |added| ==> Along(added[i], d) > Along(p, d)
    ensures Pushable(w, d, boxes + {l}) && InReach(w, d, boxes + {l}, rest + added)
  {
    var pushed := boxes + {l};
    assert ([p] + rest)[0] == p;
    assert Reached(w, d, boxes, p) && Along(p, d) > Along(w.robot, d);
    forall i | 0 <= i < |rest + added|
      ensures Reached(w, d, pushed, (rest + added)[i]) && Along((rest + added)[i], d) > Along(w.robot, d)
    {
      if i < |rest| {
        assert (rest + added)[i] == ([p] + rest)[i + 1];
      } else {
        assert (rest + added)[i] == added[i - |rest|];
        assert added[i - |rest|] in Front(l, d);
      }
    }
  }

  lemma PopBoxPending(w: Wide, d: Point, boxes: set<Point>, p: Point, rest: seq<Point>, l: Point, added: seq<Point>)
    requires Separate(w) && Paired(w)
    requires Pending(w, d, boxes, [p] + rest)
    requires l in w.lefts && (p == l || p == Add(l, Across))
    requires forall c :: c in Front(l, d) <==> c in added
    ensures Pending(w, d, boxes + {l}, rest + added)
  {
    var pushed := boxes + {l};
    W.ShiftMember(w.lefts, Across, p);
    assert Minus(Add(l, Across), Across) == l;
    assert Cleared(w, pushed, p);
    forall c | Reached(w, d, pushed, c) ensures c in rest + added || Cleared(w, pushed, c) {
      if c !in Front(l, d) {
        assert Reached(w, d, boxes, c);
        assert c in [p] + rest || Cleared(w, boxes, c);
      }
    }
  }

  lemma PopBoxSided(w: Wide, d: Point, p: Point, rest: seq<Point>, l: Point, added: seq<Point>)
    requires Paired(w) && Sided(w, d, [p] + rest)
    requires l in w.lefts && (p == l || p == Add(l, Across))
    requires d == Point(1, 0) ==> p == l
    requires d == Point(-1, 0) ==> p == Add(l, Across)
    requires forall c :: c in Front(l, d) <==> c in added
    ensures Sided(w, d, rest + added)
  {
    W.ShiftMember(w.lefts, Across, Add(l, Across));
    assert Minus(Add(l, Across), Across) == l;
    forall i | 0 <= i < |rest + added|
      ensures d == Point(1, 0) ==> Minus((rest + added)[i], Across) == w.robot || Minus((rest + added)[i], Across) in w.rights
      ensures d == Point(-1, 0) ==> Add((rest + added)[i], Across) == w.robot || Add((rest + added)[i], Across) in w.lefts
    {
      if i < |rest| {
        assert (rest + added)[i] == ([p] + rest)[i + 1];
      } else {
        assert (rest + added)[i] in Front(l, d);
      }
    }
  }

  /** Every collected box is whole: its right half is next to its left
      half. */
  predicate Whole(effected: seq<(Point, Point)>)
  {
    forall i :: 0 <= i < |effected| ==> effected[i].1 == Add(effected[i].0, Across)
  }

  lemma WholeAppend(effected: seq<(Point, Point)>, b: (Point, Point))
    requires Whole(effected) && b.1 == Add(b.0, Across)
    ensures Whole(effected + [b])
  {
  }

  /** The right halves of the boxes `do_step` collected. */
  function Rights(effected: seq<(Point, Point)>): set<Point>
  {
    set b | b in effected :: b.1
  }

  /** Collected boxes are whole: their right halves are their left halves
      moved one cell right. */
  lemma RightsOfPairs(effected: seq<(Point, Point)>)
    requires Whole(effected)
    ensures Rights(effected) == W.Shift(Lefts(effected), Across)
  {
    forall q | q in W.Shift(Lefts(effected), Across) ensures q in Rights(effected) {
      var l :| l in Lefts(effected) && q == Add(l, Across);
      var b :| b in effected && b.0 == l;
    }
  }

  /** The breadth-first scan of `do_step`. From the cell ahead of the robot,
      every box half met adds its box to `effected` and queues the cells in
      front of that box: both cells ahead of it when pushing up or down,
      only the cell beyond its far half when pushing sideways. A wall stops
      the scan as blocked. In a paired, separated warehouse the scan never
      meets a box from its far side, nor the robot, so the Rust panics for
      those cases cannot happen. */
  method PushFront(w: Wide, instruction: char) returns (blocked: bool, effected: seq<(Point, Point)>)
    requires Separate(w) && Paired(w) && instruction in "^v<>"
    ensures Whole(effected)
    ensures Pushable(w, W.Direction(instruction).value, Lefts(effected))
    ensures blocked ==> Blocked(w, W.Direction(instruction).value, Lefts(effected))
    ensures !blocked ==> Closed(w, W.Direction(instruction).value, Lefts(effected))
  {
    var d := W.Direction(instruction).value;
    ghost var far := Farthest(w.lefts + w.rights, d);
    effected := [];
    var queue := [Add(w.robot, d)];
    FrontierStart(w, d);
    while queue != []
      invariant Scanning(w, d, effected, queue, far)
      decreases Weight(queue, d, far)
    {
      var p := queue[0];
      var rest := queue[1..];
      assert queue == [p] + rest;
      ghost var pushed := Lefts(effected);
      assert Reached(w, d, pushed, p) && Along(p, d) > Along(w.robot, d);
      if p in w.lefts {
        PopLeftHalf(w, instruction, effected, p, rest, far);
        var right := Add(p, Across);
        var added;
        if instruction == '^' || instruction == 'v' {
          added := [Add(p, d), Add(right, d)];
        } else {
          added := [Add(right, d)];
        }
        effected := effected + [(p, right)];
        queue := rest + added;
      } else if p in w.rights {
        PopRightHalf(w, instruction, effected, p, rest, far);
        var left := Add(p, Point(-1, 0));
        var added;
        if instruction == '^' || instruction == 'v' {
          added := [Add(left, d), Add(p, d)];
        } else {
          added := [Add(left, d)];
        }
        effected := effected + [(left, p)];
        queue := rest + added;
      } else if p in w.walls {
        return true, effected;
      } else {
        assert p != w.robot;
        PopFree(w, d, pushed, p, rest, far);
        queue := rest;
      }
    }
    return false, effected;
  }

  /** The invariant of the scan, with `far` bounding the box halves along
      `d`. */
  ghost predicate Scanning(w: Wide, d: Point, effected: seq<(Point, Point)>, queue: seq<Point>, far: int)
  {
    && Whole(effected) && Pushable(w, d, Lefts(effected)) && Frontier(w, d, Lefts(effected), queue)
    && forall q :: q in w.lefts + w.rights ==> Along(q, d) <= far
  }

  /** The scan meets a left half: pushing left onto it cannot happen, and
      the box with the cells in front of it keep the invariant. */
  lemma PopLeftHalf(w: Wide, instruction: char, effected: seq<(Point, Point)>, p: Point, rest: seq<Point>, far: int)
    requires Separate(w) && Paired(w) && instruction in "^v<>" && p in w.lefts
    requires Scanning(w, W.Direction(instruction).value, effected, [p] + rest, far)
    ensures instruction != '<'
    ensures var d := W.Direction(instruction).value;
            var right := Add(p, Across);
            var added := if instruction == '^' || instruction == 'v' then [Add(p, d), Add(right, d)] else [Add(right, d)];
            && Scanning(w, d, effected + [(p, right)], rest + added, far)
            && Weight(rest + added, d, far) < Weight([p] + rest, d, far)
  {
    var d := W.Direction(instruction).value;
    var right := Add(p, Across);
    assert ([p] + rest)[0] == p;
    AlongStep(p, d);
    W.ShiftMember(w.lefts, Across, right);
    assert Minus(right, Across) == p;
    var added;
    if instruction == '^' || instruction == 'v' {
      AlongStep(right, d);
      added := [Add(p, d), Add(right, d)];
    } else {
      added := [Add(right, d)];
    }
    PopBox(w, d, Lefts(effected), p, rest, p, added);
    PopWeight(p, rest, added, d, far);
    LeftsAppend(effected, (p, right));
    WholeAppend(effected, (p, right));
  }

  /** The scan meets a right half: pushing right onto it cannot happen,
      and the box with the cells in front of it keep the invariant. */
  lemma PopRightHalf(w: Wide, instruction: char, effected: seq<(Point, Point)>, p: Point, rest: seq<Point>, far: int)
    requires Separate(w) && Paired(w) && instruction in "^v<>" && p in w.rights
    requires Scanning(w, W.Direction(instruction).value, effected, [p] + rest, far)
    ensures instruction != '>'
    ensures var d := W.Direction(instruction).value;
            var left := Add(p, Point(-1, 0));
            var added := if instruction == '^' || instruction == 'v' then [Add(left, d), Add(p, d)] else [Add(left, d)];
            && Scanning(w, d, effected + [(left, p)], rest + added, far)
            && Weight(rest + added, d, far) < Weight([p] + rest, d, far)
  {
    var d := W.Direction(instruction).value;
    var left := Add(p, Point(-1, 0));
    assert ([p] + rest)[0] == p;
    AlongStep(p, d);
    W.ShiftMember(w.lefts, Across, p);
    assert left == Minus(p, Across) && Add(left, Across) == p;
    var added;
    if instruction == '^' || instruction == 'v' {
      AlongStep(left, d);
      added := [Add(left, d), Add(p, d)];
    } else {
      added := [Add(left, d)];
    }
    PopBox(w, d, Lefts(effected), p, rest, left, added);
    PopWeight(p, rest, added, d, far);
    LeftsAppend(effected, (left, p));
    WholeAppend(effected, (left, p));
  }

  /** `do_step` of part 2: an unknown instruction panics (`None`); a
      blocked push leaves the warehouse as it is; otherwise the robot and
      every collected box move one cell along the instruction. The pushed
      boxes are the ones the scan collected: real boxes, each touched by
      the robot or by another pushed box. Either one of the cells they
      reach is a wall, or every reached cell is free or part of a pushed
      box. The warehouse stays paired and separated. */
  method DoStep(w: Wide, instruction: char) returns (r: Option<Wide>)
    requires Separate(w) && Paired(w)
    ensures r.None? <==> instruction !in "^v<>"
    ensures r.Some? ==> Separate(r.value) && Paired(r.value)
    ensures r.Some? ==> StepRel(w, instruction, r.value)
  {
    var dxdy := W.Direction(instruction);
    if dxdy.None? {
      return None;
    }
    var d := dxdy.value;
    var blocked, effected := PushFront(w, instruction);
    if blocked {
      return Some(w);
    }
    var lefts := (w.lefts - Lefts(effected)) + W.Shift(Lefts(effected), d);
    var rights := (w.rights - Rights(effected)) + W.Shift(Rights(effected), d);
    RightsOfPairs(effected);
    var moved := Wide(lefts, rights, w.walls, Add(w.robot, d));
    assert moved == Moved(w, d, Lefts(effected));
    MovedPaired(w, d, Lefts(effected));
    MovedSeparate(w, d, Lefts(effected));
    return Some(moved);
  }

  /** Along the opposite direction, positions count backwards. */
  lemma AlongNeg(p: Point, d: Point)
    requires IsUnit(d)
    ensures Along(p, Neg(d)) == -Along(p, d)
  {
    UnitCases(d);
  }

  /** A pushable box whose supporting boxes all lie in a closed push lies in
      it too: the cell that reaches it is cleared, so the box half on that
      cell belongs to the closed push. The induction runs along `d`, from
      the lower bound `low` of the pushable set. */
  lemma {:induction false} InClosedPush(w: Wide, d: Point, pushed: set<Point>, closed: set<Point>, low: int, l: Point)
    requires IsUnit(d) && Paired(w)
    requires Pushable(w, d, pushed) && Pushable(w, d, closed) && Closed(w, d, closed)
    requires forall p :: p in pushed ==> Along(p, d) >= low
    requires l in pushed
    ensures l in closed
    decreases Along(l, d) - low
  {
    var c := if Reached(w, d, pushed, l) then l else Add(l, Across);
    assert Reached(w, d, pushed, c);
    if c != Add(w.robot, d) {
      var l' :| l' in pushed && c in Front(l', d);
      FrontIsAhead(l', c, l, d);
      InClosedPush(w, d, pushed, closed, low, l');
      assert Reached(w, d, closed, c);
    }
    ClearedHalf(w, closed, c, l);
  }

  /** A box reached from the front of another lies further along `d`. */
  lemma FrontIsAhead(l': Point, c: Point, l: Point, d: Point)
    requires IsUnit(d) && c in Front(l', d) && (c == l || c == Add(l, Across))
    ensures Along(l', d) < Along(l, d)
  {
    UnitCases(d);
  }

  /** A cleared cell holding a half of the box `l` puts `l` in the push. */
  lemma ClearedHalf(w: Wide, closed: set<Point>, c: Point, l: Point)
    requires Paired(w) && l in w.lefts && (c == l || c == Add(l, Across))
    requires Cleared(w, closed, c)
    ensures l in closed
  {
    if c != l {
      W.ShiftMember(w.lefts, Across, c);
      assert Minus(c, Across) == l;
    }
  }

  /** A push cannot be both blocked and going through: any pushable set is
      contained in a closed one, which reaches no wall. So the two outcomes
      `DoStep` allows exclude each other. */
  lemma ClosedExcludesBlocked(w: Wide, d: Point, pushed: set<Point>, closed: set<Point>)
    requires IsUnit(d) && Paired(w)
    requires Pushable(w, d, pushed) && Pushable(w, d, closed) && Closed(w, d, closed)
    ensures pushed <= closed
    ensures !Blocked(w, d, pushed)
  {
    var low := -Farthest(pushed, Neg(d));
    forall p | p in pushed ensures Along(p, d) >= low {
      AlongNeg(p, d);
    }
    forall l | l in pushed ensures l in closed {
      InClosedPush(w, d, pushed, closed, low, l);
    }
    forall c | Reached(w, d, pushed, c) ensures c !in w.walls {
      assert Reached(w, d, closed, c);
    }
  }

  /** `run_instructions` of part 2: every instruction in order; `None` if
      any of them is unknown. The result is the end of a chain of single
      steps, one per instruction, each of them a blocked or a closed push. */
  method RunInstructions(w0: Wide, instructions: seq<char>) returns (r: Option<Wide>)
    requires Separate(w0) && Paired(w0)
    ensures r.None? <==> exists i :: 0 <= i < |instructions| && instructions[i] !in "^v<>"
    ensures r.Some? ==> Separate(r.value) && Paired(r.value)
    ensures r.Some? ==> exists trace :: Chain(w0, instructions, trace) && trace[|instructions|] == r.value
  {
    var w := w0;
    ghost var trace := [w0];
    for i := 0 to |instructions|
      invariant Separate(w) && Paired(w)
      invariant Chain(w0, instructions[..i], trace) && trace[i] == w
    {
      var next := DoStep(w, instructions[i]);
      if next.None? {
        return None;
      }
      ChainStep(w0, instructions, i, trace, next.value);
      w := next.value;
      trace := trace + [w];
    }
    assert instructions[..|instructions|] == instructions;
    ChainKnown(w0, instructions, trace);
    return Some(w);
  }

  /** What `DoStep` promises for one instruction: a known direction, and
      either a blocked push that leaves the warehouse alone or a closed push
      that moves the robot and the boxes it pushes. */
  ghost predicate StepRel(w: Wide, c: char, w': Wide)
  {
    W.Direction(c).Some? &&
    var d := W.Direction(c).value;
    || (w' == w && exists boxes :: Pushable(w, d, boxes) && Blocked(w, d, boxes))
    || (exists boxes :: Pushable(w, d, boxes) && Closed(w, d, boxes) && w' == Moved(w, d, boxes))
  }

  /** `trace` lists the warehouse before each instruction and after the
      last, each consecutive pair one `StepRel` apart. */
  ghost predicate Chain(w0: Wide, instructions: seq<char>, trace: seq<Wide>)
  {
    && |trace| == |instructions| + 1 && trace[0] == w0
    && forall j :: 0 <= j < |instructions| ==> StepRel(trace[j], instructions[j], trace[j + 1])
  }

  /** Every instruction along a chain is a known direction. */
  lemma ChainKnown(w0: Wide, instructions: seq<char>, trace: seq<Wide>)
    requires Chain(w0, instructions, trace)
    ensures forall j :: 0 <= j < |instructions| ==> instructions[j] in "^v<>"
  {
    forall j | 0 <= j < |instructions| ensures instructions[j] in "^v<>" {
      assert StepRel(trace[j], instructions[j], trace[j + 1]);
      assert W.Direction(instructions[j]).Some?;
    }
  }

  /** The chain over the first `i` instructions extends by the next one. */
  lemma ChainStep(w0: Wide, instructions: seq<char>, i: nat, trace: seq<Wide>, w': Wide)
    requires i < |instructions| && Chain(w0, instructions[..i], trace)
    requires StepRel(trace[i], instructions[i], w')
    ensures Chain(w0, instructions[..i + 1], trace + [w']) && (trace + [w'])[i + 1] == w'
  {
    ChainExtend(w0, instructions[..i], trace, instructions[i], w');
    assert instructions[..i + 1] == instructions[..i] + [instructions[i]];
  }

  lemma ChainExtend(w0: Wide, instructions: seq<char>, trace: seq<Wide>, c: char, w': Wide)
    requires Chain(w0, instructions, trace) && StepRel(trace[|instructions|], c, w')
    ensures Chain(w0, instructions + [c], trace + [w'])
  {
    var t := trace + [w'];
    var cs := instructions + [c];
    var n := |instructions|;
    assert t[n] == trace[n] && t[n + 1] == w' && cs[n] == c;
    forall j | 0 <= j < |cs| ensures StepRel(t[j], cs[j], t[j + 1]) {
      if j < n {
        assert t[j] == trace[j] && t[j + 1] == trace[j + 1] && cs[j] == instructions[j];
      }
    }
  }

  /** `sum_of_gps_coordinates` of part 2: the GPS sum over the left halves
      only. */
  method SumOfGps(w: Wide) returns (total: int)
    ensures total == W.GpsSum(w.lefts)
  {
    total := W.SumOfGps(w.lefts);
  }
}
