/** Day 21: the keystrokes that make a robot arm type a code on a keypad,
    and the same construction applied twice more on directional keypads.
    Each button press moves the arm horizontally and then vertically, after
    at most one detour step that keeps it off the keypad's gap, and ends
    with 'A'. */
module Keypads {
  import opened Wrappers
  import opened Geometry
  import opened Decimal

  datatype Pad = Numeric | Directional

  /** The `buttons_to_locations` tables; `None` where the Rust code panics on
      `get(..).unwrap()`. */
  function Button(pad: Pad, c: char): (r: Option<Point>)
  {
    match pad
    case Numeric =>
      if c == '0' then Some(Point(1, 0)) else if c == 'A' then Some(Point(2, 0))
      else if c == '1' then Some(Point(0, 1)) else if c == '2' then Some(Point(1, 1))
      else if c == '3' then Some(Point(2, 1)) else if c == '4' then Some(Point(0, 2))
      else if c == '5' then Some(Point(1, 2)) else if c == '6' then Some(Point(2, 2))
      else if c == '7' then Some(Point(0, 3)) else if c == '8' then Some(Point(1, 3))
      else if c == '9' then Some(Point(2, 3)) else None
    case Directional =>
      if c == '<' then Some(Point(0, 0)) else if c == 'v' then Some(Point(1, 0))
      else if c == '>' then Some(Point(2, 0)) else if c == '^' then Some(Point(1, 1))
      else if c == 'A' then Some(Point(2, 1)) else None
  }

  /** The button under the arm, the inverse of the table. */
  function ButtonAt(pad: Pad, p: Point): (r: Option<char>)
  {
    match pad
    case Numeric =>
      if p == Point(1, 0) then Some('0') else if p == Point(2, 0) then Some('A')
      else if p == Point(0, 1) then Some('1') else if p == Point(1, 1) then Some('2')
      else if p == Point(2, 1) then Some('3') else if p == Point(0, 2) then Some('4')
      else if p == Point(1, 2) then Some('5') else if p == Point(2, 2) then Some('6')
      else if p == Point(0, 3) then Some('7') else if p == Point(1, 3) then Some('8')
      else if p == Point(2, 3) then Some('9') else None
    case Directional =>
      if p == Point(0, 0) then Some('<') else if p == Point(1, 0) then Some('v')
      else if p == Point(2, 0) then Some('>') else if p == Point(1, 1) then Some('^')
      else if p == Point(2, 1) then Some('A') else None
  }

  /** The empty corner of each keypad. */
  function Gap(pad: Pad): Point
  {
    match pad
    case Numeric => Point(0, 0)
    case Directional => Point(0, 1)
  }

  function Height(pad: Pad): nat
  {
    match pad
    case Numeric => 4
    case Directional => 2
  }

  /** A cell of the keypad: inside its three columns and its rows, and not
      the gap. */
  predicate OnPad(pad: Pad, p: Point)
  {
    0 <= p.x <= 2 && 0 <= p.y < Height(pad) && p != Gap(pad)
  }

  /** The two tables are inverse to each other, and their cells are exactly
      the cells of the keypad. */
  lemma ButtonsRoundTrip(pad: Pad, c: char, p: Point)
    ensures Button(pad, c) == Some(p) <==> ButtonAt(pad, p) == Some(c)
    ensures ButtonAt(pad, p).Some? <==> OnPad(pad, p)
  {
  }

  // ---------------------------------------------------------------------
  // Replaying keystrokes

  /** The offset of a direction key; `^` increases `y` on both keypads. */
  function Move(k: char): Option<Point>
  {
    if k == '>' then Some(Point(1, 0)) else if k == '<' then Some(Point(-1, 0))
    else if k == '^' then Some(Point(0, 1)) else if k == 'v' then Some(Point(0, -1))
    else None
  }

  /** What the arm does with `keys` from `at`: direction keys move it, 'A'
      presses the button under it. The final cell and the buttons pressed,
      or `None` when it leaves the keypad, crosses the gap or reads a key it
      does not know. */
  function Run(pad: Pad, at: Point, keys: seq<char>): (r: Option<(Point, seq<char>)>)
    decreases |keys|
  {
    if keys == [] then Some((at, []))
    else if keys[0] == 'A' then
      var b := ButtonAt(pad, at);
      var rest := Run(pad, at, keys[1..]);
      if b.None? || rest.None? then None else Some((rest.value.0, [b.value] + rest.value.1))
    else
      var d := Move(keys[0]);
      if d.None? || !OnPad(pad, Add(at, d.value)) then None
      else Run(pad, Add(at, d.value), keys[1..])
  }

  /** Running two blocks of keys runs the second from where the first ends. */
  lemma {:induction false} RunConcat(pad: Pad, at: Point, a: seq<char>, b: seq<char>, q: Point, out: seq<char>)
    requires Run(pad, at, a) == Some((q, out))
    ensures Run(pad, q, b).None? ==> Run(pad, at, a + b).None?
    ensures Run(pad, q, b).Some? ==>
              Run(pad, at, a + b) == Some((Run(pad, q, b).value.0, out + Run(pad, q, b).value.1))
    decreases |a|
  {
    if a != [] {
      assert (a + b)[1..] == a[1..] + b;
      if a[0] == 'A' {
        var rest := Run(pad, at, a[1..]).value;
        RunConcat(pad, at, a[1..], b, q, rest.1);
        var rb := Run(pad, q, b);
        if rb.Some? {
          assert out == [ButtonAt(pad, at).value] + rest.1;
          assert [ButtonAt(pad, at).value] + (rest.1 + rb.value.1) == out + rb.value.1;
        }
      } else {
        var next := Add(at, Move(a[0]).value);
        assert Run(pad, at, a) == Run(pad, next, a[1..]);
        assert (a + b)[0] == a[0];
        assert Run(pad, at, a + b) == Run(pad, next, a[1..] + b);
        RunConcat(pad, next, a[1..], b, q, out);
      }
    } else {
      assert a + b == b && q == at && out == [];
      if Run(pad, q, b).Some? {
        assert out + Run(pad, q, b).value.1 == Run(pad, q, b).value.1;
      }
    }
  }

  function Repeat(k: char, n: nat): (r: seq<char>)
    ensures |r| == n && forall i :: 0 <= i < n ==> r[i] == k
  {
    seq(n, _ => k)
  }

  /** The key that moves the arm from column `x0` towards `x1`. */
  function HKey(x0: int, x1: int): char
  {
    if x1 - x0 > 0 then '>' else '<'
  }

  /** The key that moves the arm from row `y0` towards `y1`. */
  function VKey(y0: int, y1: int): char
  {
    if y1 - y0 > 0 then '^' else 'v'
  }

  /** `x` lies past `a` on the way to `b`. */
  predicate Between(a: int, x: int, b: int)
  {
    (a < x <= b) || (b <= x < a)
  }

  /** A straight horizontal run over keypad cells ends in the target column
      and presses nothing. */
  lemma {:induction false} RunRow(pad: Pad, at: Point, x1: int)
    requires forall x :: Between(at.x, x, x1) ==> OnPad(pad, Point(x, at.y))
    ensures Run(pad, at, Repeat(HKey(at.x, x1), AbsDiff(at.x, x1))) == Some((Point(x1, at.y), []))
    decreases AbsDiff(at.x, x1)
  {
    var keys := Repeat(HKey(at.x, x1), AbsDiff(at.x, x1));
    if at.x != x1 {
      var next := Add(at, Move(HKey(at.x, x1)).value);
      assert next == Point(if x1 > at.x then at.x + 1 else at.x - 1, at.y);
      assert Between(at.x, next.x, x1);
      assert keys[1..] == Repeat(HKey(next.x, x1), AbsDiff(next.x, x1));
      RunRow(pad, next, x1);
    }
  }

  /** A straight vertical run over keypad cells ends in the target row and
      presses nothing. */
  lemma {:induction false} RunColumn(pad: Pad, at: Point, y1: int)
    requires forall y :: Between(at.y, y, y1) ==> OnPad(pad, Point(at.x, y))
    ensures Run(pad, at, Repeat(VKey(at.y, y1), AbsDiff(at.y, y1))) == Some((Point(at.x, y1), []))
    decreases AbsDiff(at.y, y1)
  {
    var keys := Repeat(VKey(at.y, y1), AbsDiff(at.y, y1));
    if at.y != y1 {
      var next := Add(at, Move(VKey(at.y, y1)).value);
      assert next == Point(at.x, if y1 > at.y then at.y + 1 else at.y - 1);
      assert Between(at.y, next.y, y1);
      assert keys[1..] == Repeat(VKey(next.y, y1), AbsDiff(next.y, y1));
      RunColumn(pad, next, y1);
    }
  }

  // ---------------------------------------------------------------------
  // One button press

  /** The detour before the straight moves: on the numeric keypad `>` out of
      the left column when the target is on the bottom row, then `^` off the
      bottom row when the target is in the left column; on the directional
      keypad `>` off '<' when the target is on the top row, then `v` off the
      top row when the target is '<'. The cell reached and the keys pressed. */
  function Detour(pad: Pad, at: Point, dest: Point): (Point, seq<char>)
  {
    var dx := dest.x - at.x;
    var dy := dest.y - at.y;
    match pad
    case Numeric =>
      var first := dy < 0 && -dy >= at.y && at.x == 0;
      var a1 := if first then Point(at.x + 1, at.y) else at;
      var second := dx < 0 && -dx >= a1.x && a1.y == 0;
      var a2 := if second then Point(a1.x, a1.y + 1) else a1;
      (a2, (if first then ['>'] else []) + (if second then ['^'] else []))
    case Directional =>
      var first := dy > 0 && dy >= at.y && at.x == 0;
      var a1 := if first then Point(at.x + 1, at.y) else at;
      var second := dx < 0 && -dx >= a1.x && a1.y == 1;
      var a2 := if second then Point(a1.x, a1.y - 1) else a1;
      (a2, (if first then ['>'] else []) + (if second then ['v'] else []))
  }

  /** The key that undoes `k`. */
  function Opposite(k: char): char
  {
    if k == '>' then '<' else if k == '<' then '>' else if k == '^' then 'v' else if k == 'v' then '^' else k
  }

  /** A single move onto a keypad cell. */
  lemma RunMove(pad: Pad, at: Point, k: char)
    requires Move(k).Some? && OnPad(pad, Add(at, Move(k).value))
    ensures Run(pad, at, [k]) == Some((Add(at, Move(k).value), []))
  {
    assert [k][1..] == [];
  }

  /** Pressing the button under the arm. */
  lemma RunPress(pad: Pad, at: Point)
    requires OnPad(pad, at)
    ensures ButtonAt(pad, at).Some?
    ensures Run(pad, at, ['A']) == Some((at, [ButtonAt(pad, at).value]))
  {
    ButtonsRoundTrip(pad, 'A', at);
    assert ['A'][1..] == [];
    assert [ButtonAt(pad, at).value] + [] == [ButtonAt(pad, at).value];
  }

  /** The detour is at most one key, and it moves towards the target. */
  lemma DetourShortens(pad: Pad, at: Point, dest: Point)
    requires OnPad(pad, at) && OnPad(pad, dest)
    ensures |Detour(pad, at, dest).1| <= 1
    ensures Manhattan(Detour(pad, at, dest).0, dest) + |Detour(pad, at, dest).1| == Manhattan(at, dest)
  {
  }

  /** The detour key moves the arm over a keypad cell and presses nothing. */
  lemma DetourRuns(pad: Pad, at: Point, dest: Point)
    requires OnPad(pad, at) && OnPad(pad, dest)
    ensures Run(pad, at, Detour(pad, at, dest).1) == Some((Detour(pad, at, dest).0, []))
  {
    var a2 := Detour(pad, at, dest).0;
    var ks := Detour(pad, at, dest).1;
    DetourShortens(pad, at, dest);
    DetourStep(pad, at, dest);
    if ks != [] {
      assert ks == [ks[0]];
      RunMove(pad, at, ks[0]);
    }
  }

  /** The detour key is a move onto a keypad cell, or there is none. */
  lemma DetourStep(pad: Pad, at: Point, dest: Point)
    requires OnPad(pad, at) && OnPad(pad, dest)
    ensures var (a2, ks) := Detour(pad, at, dest);
      if ks == [] then a2 == at
      else Move(ks[0]).Some? && a2 == Add(at, Move(ks[0]).value) && OnPad(pad, a2)
  {
  }

  /** After the detour, the row towards the target column avoids the gap. */
  lemma DetourRowClear(pad: Pad, at: Point, dest: Point)
    requires OnPad(pad, at) && OnPad(pad, dest)
    ensures var a2 := Detour(pad, at, dest).0;
      forall x :: Between(a2.x, x, dest.x) ==> OnPad(pad, Point(x, a2.y))
  {
  }

  /** After the detour, the target column towards the target row avoids the
      gap. */
  lemma DetourColumnClear(pad: Pad, at: Point, dest: Point)
    requires OnPad(pad, at) && OnPad(pad, dest)
    ensures var a2 := Detour(pad, at, dest).0;
      forall y :: Between(a2.y, y, dest.y) ==> OnPad(pad, Point(dest.x, y))
  {
  }

  /** The detour key is `>`, `^` or `v`, and no straight move undoes it. */
  lemma DetourForward(pad: Pad, at: Point, dest: Point)
    requires OnPad(pad, at) && OnPad(pad, dest)
    ensures var (a2, ks) := Detour(pad, at, dest);
      |ks| == 1 ==>
        && ks[0] in ['>', '^', 'v']
        && (a2.x != dest.x ==> ks[0] != Opposite(HKey(a2.x, dest.x)))
        && (a2.y != dest.y ==> ks[0] != Opposite(VKey(a2.y, dest.y)))
  {
  }

  /** The straight part of a press: first along the row, then along the
      column, then 'A'. */
  function Straight(from: Point, dest: Point): (r: seq<char>)
  {
    Repeat(HKey(from.x, dest.x), AbsDiff(from.x, dest.x))
    + Repeat(VKey(from.y, dest.y), AbsDiff(from.y, dest.y))
    + ['A']
  }

  predicate IsHorizontal(k: char)
  {
    k == '<' || k == '>'
  }

  predicate IsVertical(k: char)
  {
    k == '^' || k == 'v'
  }

  /** The keys of one press: after the first key, no horizontal key follows
      a vertical one, and no key undoes another. */
  predicate HorizontalFirst(keys: seq<char>)
  {
    && (forall a, b :: 1 <= a < b < |keys| && IsVertical(keys[a]) ==> !IsHorizontal(keys[b]))
    && (forall a, b :: 0 <= a < |keys| && 0 <= b < |keys| ==> keys[a] != Opposite(keys[b]) || keys[a] == 'A')
  }

  /** The keystrokes for moving from `at` to `dest` and pressing it: one
      more than the Manhattan distance, with 'A' only at the end. */
  function Press(pad: Pad, at: Point, dest: Point): (r: seq<char>)
    requires OnPad(pad, at) && OnPad(pad, dest)
    ensures |r| == Manhattan(at, dest) + 1
    ensures r[|r| - 1] == 'A' && 'A' !in r[..|r| - 1]
  {
    DetourShortens(pad, at, dest);
    DetourForward(pad, at, dest);
    PressShape(Detour(pad, at, dest).1, Detour(pad, at, dest).0, dest);
    Detour(pad, at, dest).1 + Straight(Detour(pad, at, dest).0, dest)
  }

  /** A press moves horizontally before vertically after at most one
      detour key, and never presses a key that undoes another. */
  lemma PressOrdered(pad: Pad, at: Point, dest: Point)
    requires OnPad(pad, at) && OnPad(pad, dest)
    ensures HorizontalFirst(Press(pad, at, dest))
  {
    DetourShortens(pad, at, dest);
    DetourForward(pad, at, dest);
    PressShape(Detour(pad, at, dest).1, Detour(pad, at, dest).0, dest);
  }

  lemma PressShape(ks: seq<char>, a2: Point, dest: Point)
    requires |ks| <= 1
    requires |ks| == 1 ==> ks[0] in ['>', '^', 'v']
    requires |ks| == 1 && a2.x != dest.x ==> ks[0] != Opposite(HKey(a2.x, dest.x))
    requires |ks| == 1 && a2.y != dest.y ==> ks[0] != Opposite(VKey(a2.y, dest.y))
    ensures var r := ks + Straight(a2, dest);
      r[|r| - 1] == 'A' && 'A' !in r[..|r| - 1] && HorizontalFirst(r)
  {
    var r := ks + Straight(a2, dest);
    var h := AbsDiff(a2.x, dest.x);
    var v := AbsDiff(a2.y, dest.y);
    var n := |ks|;
    assert |r| == n + h + v + 1;
    assert forall i :: n <= i < n + h ==> r[i] == HKey(a2.x, dest.x);
    assert forall i :: n + h <= i < n + h + v ==> r[i] == VKey(a2.y, dest.y);
    assert r[n + h + v] == 'A';
  }

  /** Replaying a press from `at` ends on `dest` and presses exactly its
      button. */
  lemma PressLands(pad: Pad, at: Point, dest: Point)
    requires OnPad(pad, at) && OnPad(pad, dest)
    ensures Run(pad, at, Press(pad, at, dest)) == Some((dest, [ButtonAt(pad, dest).value]))
  {
    var a2 := Detour(pad, at, dest).0;
    var ks := Detour(pad, at, dest).1;
    DetourRuns(pad, at, dest);
    DetourRowClear(pad, at, dest);
    DetourColumnClear(pad, at, dest);
    var hs := Repeat(HKey(a2.x, dest.x), AbsDiff(a2.x, dest.x));
    var vs := Repeat(VKey(a2.y, dest.y), AbsDiff(a2.y, dest.y));
    var corner := Point(dest.x, a2.y);
    RunRow(pad, a2, dest.x);
    RunColumn(pad, corner, dest.y);
    RunPress(pad, dest);
    var pressed := [ButtonAt(pad, dest).value];
    assert [] + pressed == pressed;
    RunConcat(pad, corner, vs, ['A'], dest, []);
    assert Run(pad, corner, vs + ['A']) == Some((dest, pressed));
    RunConcat(pad, a2, hs, vs + ['A'], corner, []);
    assert Run(pad, a2, hs + (vs + ['A'])) == Some((dest, pressed));
    RunConcat(pad, at, ks, hs + (vs + ['A']), a2, []);
    assert Run(pad, at, ks + (hs + (vs + ['A']))) == Some((dest, pressed));
    assert Press(pad, at, dest) == ks + Straight(a2, dest) == ks + (hs + (vs + ['A']));
  }

  // ---------------------------------------------------------------------
  // Typing a code

  /** Every character of `code` is a button of the keypad. */
  predicate Typable(pad: Pad, code: seq<char>)
    decreases |code|
  {
    code == [] || (Button(pad, code[0]).Some? && Typable(pad, code[1..]))
  }

  /** `Typable` checks each character. */
  lemma {:induction false} TypableAll(pad: Pad, code: seq<char>)
    ensures Typable(pad, code) <==> forall i :: 0 <= i < |code| ==> Button(pad, code[i]).Some?
    decreases |code|
  {
    if code != [] {
      TypableAll(pad, code[1..]);
      assert forall i :: 1 <= i < |code| ==> code[i] == code[1..][i - 1];
    }
  }

  /** The presses for typing `code` with the arm starting at `at`; `None`
      when a character is not a button. */
  function ConsoleFrom(pad: Pad, at: Point, code: seq<char>): (r: Option<seq<char>>)
    requires OnPad(pad, at)
    ensures r.Some? <==> Typable(pad, code)
    decreases |code|
  {
    if code == [] then Some([])
    else
      var dest := Button(pad, code[0]);
      if dest.None? then None
      else
        ButtonsRoundTrip(pad, code[0], dest.value);
        var rest := ConsoleFrom(pad, dest.value, code[1..]);
        if rest.None? then None else Some(Press(pad, at, dest.value) + rest.value)
  }

  /** The keystrokes of a non-empty code: the press of its first button,
      then the keystrokes of the rest from there. */
  lemma ConsoleFromCons(pad: Pad, at: Point, code: seq<char>) returns (dest: Point)
    requires OnPad(pad, at) && ConsoleFrom(pad, at, code).Some? && |code| > 0
    ensures Button(pad, code[0]) == Some(dest) && OnPad(pad, dest)
    ensures ConsoleFrom(pad, dest, code[1..]).Some?
    ensures ConsoleFrom(pad, at, code).value == Press(pad, at, dest) + ConsoleFrom(pad, dest, code[1..]).value
  {
    dest := Button(pad, code[0]).value;
    ButtonsRoundTrip(pad, code[0], dest);
  }

  /** The keystrokes press 'A' once per character and end with 'A'. */
  lemma {:induction false} ConsoleFromPresses(pad: Pad, at: Point, code: seq<char>)
    requires OnPad(pad, at) && ConsoleFrom(pad, at, code).Some?
    ensures multiset(ConsoleFrom(pad, at, code).value)['A'] == |code|
    ensures |code| == 0 ==> ConsoleFrom(pad, at, code).value == []
    ensures |code| > 0 ==> EndsWithPress(ConsoleFrom(pad, at, code).value)
    decreases |code|
  {
    if code != [] {
      var dest := ConsoleFromCons(pad, at, code);
      var press := Press(pad, at, dest);
      var rest := ConsoleFrom(pad, dest, code[1..]).value;
      var keys := ConsoleFrom(pad, at, code).value;
      assert keys == press + rest;
      ConsoleFromPresses(pad, dest, code[1..]);
      JoinPresses(press, rest, |code| - 1);
      assert multiset(keys)['A'] == |code|;
      assert EndsWithPress(keys);
    } else {
      assert ConsoleFrom(pad, at, code) == Some([]);
    }
  }

  /** The keystrokes use only the buttons of the directional keypad. */
  lemma {:induction false} ConsoleFromKeys(pad: Pad, at: Point, code: seq<char>)
    requires OnPad(pad, at) && ConsoleFrom(pad, at, code).Some?
    ensures Typable(Directional, ConsoleFrom(pad, at, code).value)
    decreases |code|
  {
    if code != [] {
      var dest := ConsoleFromCons(pad, at, code);
      var press := Press(pad, at, dest);
      var rest := ConsoleFrom(pad, dest, code[1..]).value;
      ConsoleFromKeys(pad, dest, code[1..]);
      PressKeys(pad, at, dest);
      JoinKeys(press, rest);
    }
  }

  /** The last keystroke presses the button. */
  predicate EndsWithPress(keys: seq<char>)
  {
    |keys| > 0 && keys[|keys| - 1] == 'A'
  }

  /** Joining a press to the presses of the rest of a code. */
  lemma JoinPresses(press: seq<char>, rest: seq<char>, n: nat)
    requires |press| > 0 && press[|press| - 1] == 'A' && 'A' !in press[..|press| - 1]
    requires multiset(rest)['A'] == n && (n == 0 ==> rest == []) && (n > 0 ==> EndsWithPress(rest))
    ensures multiset(press + rest)['A'] == n + 1
    ensures EndsWithPress(press + rest)
  {
    assert press == press[..|press| - 1] + ['A'];
    assert multiset(press)['A'] == 1;
  }

  lemma {:induction false} JoinKeys(press: seq<char>, rest: seq<char>)
    requires Typable(Directional, press) && Typable(Directional, rest)
    ensures Typable(Directional, press + rest)
    decreases |press|
  {
    if press != [] {
      assert (press + rest)[1..] == press[1..] + rest;
      JoinKeys(press[1..], rest);
    } else {
      assert press + rest == rest;
    }
  }

  /** Every key of a press is a button of the directional keypad. */
  lemma PressKeys(pad: Pad, at: Point, dest: Point)
    requires OnPad(pad, at) && OnPad(pad, dest)
    ensures Typable(Directional, Press(pad, at, dest))
  {
    var a2 := Detour(pad, at, dest).0;
    var ks := Detour(pad, at, dest).1;
    DetourShortens(pad, at, dest);
    DetourForward(pad, at, dest);
    var r := Press(pad, at, dest);
    assert r == ks + Straight(a2, dest);
    forall i | 0 <= i < |r| ensures Button(Directional, r[i]).Some? {
      if i >= |ks| {
        var k := r[i];
        assert k == HKey(a2.x, dest.x) || k == VKey(a2.y, dest.y) || k == 'A';
      }
    }
    TypableAll(Directional, r);
  }

  /** The arm starts on 'A'. */
  function Home(pad: Pad): (p: Point)
    ensures OnPad(pad, p) && Button(pad, 'A') == Some(p)
  {
    match pad
    case Numeric => Point(2, 0)
    case Directional => Point(2, 1)
  }

  /** `calculate_quickest_path_on_first_console` (numeric) and
      `calculate_path_on_redirect_console` (directional). */
  function Console(pad: Pad, code: seq<char>): (r: Option<seq<char>>)
    ensures r.Some? <==> Typable(pad, code)
    ensures r.Some? ==> Typable(Directional, r.value)
  {
    var r := ConsoleFrom(pad, Home(pad), code);
    if r.Some? then
      ConsoleFromKeys(pad, Home(pad), code);
      r
    else r
  }

  /** The keystrokes press 'A' once per character of the code, end with
      'A', and use only the buttons of the directional keypad, so the next
      robot can always type them. */
  lemma ConsoleShape(pad: Pad, code: seq<char>)
    requires Console(pad, code).Some?
    ensures var keys := Console(pad, code).value;
      && multiset(keys)['A'] == |code|
      && (|code| > 0 ==> EndsWithPress(keys))
      && Typable(Directional, keys)
  {
    ConsoleFromPresses(pad, Home(pad), code);
    ConsoleFromKeys(pad, Home(pad), code);
  }


  /** Replaying the keystrokes from `at` types the code back, never leaving
      the keypad or crossing its gap. */
  lemma {:induction false} ConsoleFromReplays(pad: Pad, at: Point, code: seq<char>)
    requires OnPad(pad, at) && ConsoleFrom(pad, at, code).Some?
    ensures Run(pad, at, ConsoleFrom(pad, at, code).value).Some?
    ensures Run(pad, at, ConsoleFrom(pad, at, code).value).value.1 == code
    decreases |code|
  {
    if code != [] {
      var dest := Button(pad, code[0]).value;
      ButtonsRoundTrip(pad, code[0], dest);
      var press := Press(pad, at, dest);
      var rest := ConsoleFrom(pad, dest, code[1..]).value;
      PressLands(pad, at, dest);
      ConsoleFromReplays(pad, dest, code[1..]);
      RunConcat(pad, at, press, rest, dest, [code[0]]);
      assert [code[0]] + code[1..] == code;
    }
  }

  /** The robot arm typing the keystrokes from 'A' types the code. */
  lemma ConsoleReplays(pad: Pad, code: seq<char>)
    requires Console(pad, code).Some?
    ensures Run(pad, Home(pad), Console(pad, code).value).Some?
    ensures Run(pad, Home(pad), Console(pad, code).value).value.1 == code
  {
    ConsoleFromReplays(pad, Home(pad), code);
  }

  /** The number of keystrokes: Manhattan distance plus one per button. */
  function Strokes(pad: Pad, at: Point, code: seq<char>): nat
    decreases |code|
  {
    if code == [] then 0
    else
      var dest := Button(pad, code[0]);
      if dest.None? then 0
      else Manhattan(at, dest.value) + 1 + Strokes(pad, dest.value, code[1..])
  }

  lemma {:induction false} ConsoleFromLength(pad: Pad, at: Point, code: seq<char>)
    requires OnPad(pad, at) && ConsoleFrom(pad, at, code).Some?
    ensures |ConsoleFrom(pad, at, code).value| == Strokes(pad, at, code)
    decreases |code|
  {
    if code != [] {
      var dest := Button(pad, code[0]).value;
      ButtonsRoundTrip(pad, code[0], dest);
      ConsoleFromLength(pad, dest, code[1..]);
    }
  }

  // ---------------------------------------------------------------------
  // Complexity

  /** `calculate_quickest_path`: the length of the keystrokes on the third
      keypad, typing on the directional keypad that types on the directional
      keypad that types the code. `None` when the code holds a character
      the numeric keypad lacks. */
  function QuickestPath(code: seq<char>): (r: Option<nat>)
    ensures r.Some? <==> Typable(Numeric, code)
  {
    var step1 := Console(Numeric, code);
    if step1.None? then None
    else
      var step2 := Console(Directional, step1.value);
      var step3 := Console(Directional, step2.value);
      Some(|step3.value|)
  }


  /** Each stage types the previous one: replaying the third keystrokes
      types the second, replaying those types the first, and replaying
      those types the code. */
  lemma QuickestPathReplays(code: seq<char>)
    requires Console(Numeric, code).Some?
    ensures var step1 := Console(Numeric, code).value;
      var step2 := Console(Directional, step1).value;
      var step3 := Console(Directional, step2).value;
      && Run(Numeric, Home(Numeric), step1).Some? && Run(Numeric, Home(Numeric), step1).value.1 == code
      && Run(Directional, Home(Directional), step2).Some? && Run(Directional, Home(Directional), step2).value.1 == step1
      && Run(Directional, Home(Directional), step3).Some? && Run(Directional, Home(Directional), step3).value.1 == step2
  {
    var step1 := Console(Numeric, code).value;
    var step2 := Console(Directional, step1).value;
    ConsoleReplays(Numeric, code);
    ConsoleReplays(Directional, step1);
    ConsoleReplays(Directional, step2);
  }

  function Min(a: nat, b: nat): nat
  {
    if a < b then a else b
  }

  function Product(a: nat, b: nat): nat
  {
    a * b
  }

  /** `code.iter().take(3).collect::<String>().parse::<usize>().unwrap()`
      times the quickest path; `None` where either `unwrap` panics. */
  function Complexity(code: seq<char>): (r: Option<nat>)
    ensures r.Some? <==> QuickestPath(code).Some? && ParseNat(code[..Min(3, |code|)]).Some?
  {
    var x := QuickestPath(code);
    var y := ParseNat(code[..Min(3, |code|)]);
    if x.None? || y.None? then None else Some(Product(x.value, y.value))
  }

  /** `solve1`: the sum of the complexities of the codes. */
  function SumOfComplexities(codes: seq<seq<char>>): (r: Option<nat>)
    ensures r.Some? <==> forall i :: 0 <= i < |codes| ==> Complexity(codes[i]).Some?
  {
    if codes == [] then Some(0)
    else
      var head := Complexity(codes[0]);
      var rest := SumOfComplexities(codes[1..]);
      assert forall i :: 1 <= i < |codes| ==> codes[i] == codes[1..][i - 1];
      if head.None? || rest.None? then None else Some(head.value + rest.value)
  }
}
