/** Day 13: claw machines with two buttons. Pressing A costs 3 tokens and
    moves the claw by `a`, pressing B costs 1 token and moves it by `b`.
    Part one searches press counts up to 100 by brute force; part two moves
    the prize by 10^13 in both axes and solves the 2x2 system by Cramer's
    rule in 64-bit integer arithmetic (here: unbounded). */
module ClawMachines {
  import opened Wrappers
  import opened Geometry

  datatype Machine = Machine(a: Point, b: Point, prize: Point)

  const CostA: nat := 3
  const CostB: nat := 1
  const MaxPresses: nat := 100
  const Shift: int := 10000000000000

  /** Where `pa` presses of A and `pb` presses of B put the claw. */
  function Press(m: Machine, pa: int, pb: int): Point
  {
    Add(Scale(m.a, pa), Scale(m.b, pb))
  }

  /** The claw's offset after `k` presses of a button moving it by `d`,
      one press at a time. */
  function Presses(d: Point, k: nat): Point
  {
    if k == 0 then Origin else Add(Presses(d, k - 1), d)
  }

  lemma {:induction false} PressesIsScale(d: Point, k: nat)
    ensures Presses(d, k) == Scale(d, k)
  {
    if k > 0 {
      PressesIsScale(d, k - 1);
      assert (k - 1) * d.x + d.x == k * d.x;
      assert (k - 1) * d.y + d.y == k * d.y;
    }
  }

  /** `pa` presses of A and `pb` presses of B put the claw on the prize. */
  predicate Hits(m: Machine, pa: nat, pb: nat)
  {
    Add(Presses(m.a, pa), Presses(m.b, pb)) == m.prize
  }

  lemma HitsIsPress(m: Machine, pa: nat, pb: nat)
    ensures Hits(m, pa, pb) <==> Press(m, pa, pb) == m.prize
  {
    PressesIsScale(m.a, pa);
    PressesIsScale(m.b, pb);
  }

  function Tokens(pa: nat, pb: nat): nat
  {
    CostA * pa + CostB * pb
  }

  // ---------------------------------------------------------------------
  // Rust's integer division and remainder truncate toward zero.

  function Abs(n: int): nat
  {
    if n < 0 then -n else n
  }

  /** `n / d` on `i64`: the quotient rounded toward zero. */
  function TruncDiv(n: int, d: int): int
    requires d != 0
  {
    var q := Abs(n) / Abs(d);
    if (n < 0) == (d < 0) then q else -q
  }

  /** `n % d` on `i64`: the remainder takes the sign of `n`. */
  function TruncRem(n: int, d: int): int
    requires d != 0
  {
    n - d * TruncDiv(n, d)
  }

  /** The truncated remainder has the magnitude of the remainder of the
      magnitudes and the sign of the dividend. */
  lemma TruncRemMagnitude(n: int, d: int)
    requires d != 0
    ensures TruncRem(n, d) == if n < 0 then -(Abs(n) % Abs(d)) else Abs(n) % Abs(d)
  {
    var q, s := Abs(n) / Abs(d), Abs(n) % Abs(d);
    assert Abs(n) == q * Abs(d) + s;
    if d > 0 {
      assert d * q == q * Abs(d);
    } else {
      assert d * q == -(q * Abs(d));
      assert d * -q == q * Abs(d);
    }
  }

  /** A zero truncated remainder means exact division, and it happens
      exactly when `d` divides `n`. */
  lemma TruncRemZero(n: int, d: int)
    requires d != 0
    ensures TruncRem(n, d) == 0 <==> n % d == 0
    ensures TruncRem(n, d) == 0 ==> TruncDiv(n, d) * d == n
  {
    TruncRemMagnitude(n, d);
    var q := Abs(n) / Abs(d);
    if Abs(n) % Abs(d) == 0 {
      assert TruncRem(n, d) == 0;
      MultipleRem(n, d, TruncDiv(n, d));
    }
    if n % d == 0 {
      AbsDivides(n, d);
    }
  }

  /** A non-zero multiple of `a` is at least `a` in magnitude. */
  lemma MulBound(a: int, e: int)
    ensures e != 0 ==> Abs(a * e) >= Abs(a)
  {
    if e > 0 {
      if a >= 0 { assert a * e >= a * 1; } else { assert a * e <= a * 1; }
    } else if e < 0 {
      if a >= 0 { assert a * e <= -a; } else { assert a * e >= -a; }
    }
  }

  lemma MultipleRem(n: int, d: int, k: int)
    requires d != 0 && n == k * d
    ensures n % d == 0
  {
    var q, r := n / d, n % d;
    assert n == d * q + r && 0 <= r < Abs(d);
    assert r == d * (k - q);
    MulBound(d, k - q);
  }

  lemma AbsDivides(n: int, d: int)
    requires d != 0 && n % d == 0
    ensures Abs(n) % Abs(d) == 0
  {
    var k := n / d;
    assert n == d * k;
    assert Abs(n) == Abs(d) * Abs(k) by {
      if d < 0 { assert n == (-d) * (-k); }
    }
    MultipleRem(Abs(n), Abs(d), Abs(k));
  }

  // ---------------------------------------------------------------------
  // Part two.

  /** `divide_if_divisable`: the exact quotient, or `None` when `divisor`
      does not divide `nominator`. The divisor is the non-zero determinant. */
  function DivideIfDivisible(nominator: int, divisor: int): (r: Option<int>)
    requires divisor != 0
    ensures r.Some? <==> nominator % divisor == 0
    ensures r.Some? ==> r.value * divisor == nominator
  {
    TruncRemZero(nominator, divisor);
    if TruncRem(nominator, divisor) == 0 then Some(TruncDiv(nominator, divisor)) else None
  }

  function Det(m: Machine): int
  {
    m.a.x * m.b.y - m.b.x * m.a.y
  }

  /** `determinant`: `None` exactly when the button moves are parallel. */
  function Determinant(m: Machine): (r: Option<int>)
    ensures r.None? <==> Det(m) == 0
    ensures r.Some? ==> r.value == Det(m)
  {
    var d := m.a.x * m.b.y - m.b.x * m.a.y;
    if d == 0 then None else Some(d)
  }

  function Target(m: Machine): Point
  {
    Add(m.prize, Point(Shift, Shift))
  }

  /** The machine with its prize moved to the part-two target. */
  function Shifted(m: Machine): Machine
  {
    m.(prize := Target(m))
  }

  /** Cramer's rule numerators for the presses of A and of B. */
  function NumA(m: Machine, t: Point): int
  {
    m.b.y * t.x - m.b.x * t.y
  }

  function NumB(m: Machine, t: Point): int
  {
    -m.a.y * t.x + m.a.x * t.y
  }

  /** Any solution of the system satisfies Cramer's equations. */
  lemma CramerNecessary(m: Machine, t: Point, pa: int, pb: int)
    requires Press(m, pa, pb) == t
    ensures pa * Det(m) == NumA(m, t) && pb * Det(m) == NumB(m, t)
  {
    assert t.x == m.a.x * pa + m.b.x * pb;
    assert t.y == m.a.y * pa + m.b.y * pb;
    calc {
      NumA(m, t);
      m.b.y * (m.a.x * pa + m.b.x * pb) - m.b.x * (m.a.y * pa + m.b.y * pb);
      { assert m.b.y * (m.a.x * pa + m.b.x * pb) == m.b.y * m.a.x * pa + m.b.y * m.b.x * pb;
        assert m.b.x * (m.a.y * pa + m.b.y * pb) == m.b.x * m.a.y * pa + m.b.x * m.b.y * pb; }
      pa * Det(m);
    }
    calc {
      NumB(m, t);
      -m.a.y * (m.a.x * pa + m.b.x * pb) + m.a.x * (m.a.y * pa + m.b.y * pb);
      { assert m.a.y * (m.a.x * pa + m.b.x * pb) == m.a.y * m.a.x * pa + m.a.y * m.b.x * pb;
        assert m.a.x * (m.a.y * pa + m.b.y * pb) == m.a.x * m.a.y * pa + m.a.x * m.b.y * pb; }
      pb * Det(m);
    }
  }

  /** With a non-zero determinant Cramer's equations give a solution. */
  lemma CramerSufficient(m: Machine, t: Point, pa: int, pb: int)
    requires Det(m) != 0
    requires pa * Det(m) == NumA(m, t) && pb * Det(m) == NumB(m, t)
    ensures Press(m, pa, pb) == t
  {
    var d := Det(m);
    var na, nb := NumA(m, t), NumB(m, t);
    RowSum(m.a.x, m.b.x, pa, pb, d, na, nb);
    RowSum(m.a.y, m.b.y, pa, pb, d, na, nb);
    assert m.a.x * na + m.b.x * nb == t.x * d;
    assert m.a.y * na + m.b.y * nb == t.y * d;
    Cancel(m.a.x * pa + m.b.x * pb, t.x, d);
    Cancel(m.a.y * pa + m.b.y * pb, t.y, d);
  }

  /** Multiplying one row of the system by the determinant. */
  lemma RowSum(u: int, v: int, pa: int, pb: int, d: int, na: int, nb: int)
    requires pa * d == na && pb * d == nb
    ensures (u * pa + v * pb) * d == u * na + v * nb
  {
    assert (u * pa) * d == u * (pa * d);
    assert (v * pb) * d == v * (pb * d);
  }

  lemma Cancel(u: int, v: int, d: int)
    requires d != 0 && u * d == v * d
    ensures u == v
  {
    assert (u - v) * d == 0;
  }

  /** `solve_claw_machine_extended`: the tokens of the unique press counts
      that reach the shifted prize, or `None` for a zero determinant, a
      non-integral solution or a negative press count. */
  function SolveExtended(m: Machine): (r: Option<int>)
    ensures r.Some? ==> exists pa: nat, pb: nat :: Hits(Shifted(m), pa, pb) && r.value == Tokens(pa, pb)
  {
    var t := Target(m);
    var det := Determinant(m);
    if det.None? then None
    else
      var a := DivideIfDivisible(NumA(m, t), det.value);
      var b := DivideIfDivisible(NumB(m, t), det.value);
      if a.None? || b.None? then None
      else if a.value < 0 || b.value < 0 then None
      else
        CramerSufficient(m, t, a.value, b.value);
        HitsIsPress(Shifted(m), a.value, b.value);
        Some(3 * a.value + b.value)
  }

  /** With non-parallel buttons the answer is found exactly when some
      non-negative press counts reach the shifted prize, and it is their
      token cost; with parallel buttons the source always reports `None`. */
  lemma SolveExtendedComplete(m: Machine, pa: nat, pb: nat)
    requires Hits(Shifted(m), pa, pb)
    ensures Det(m) != 0 ==> SolveExtended(m) == Some(Tokens(pa, pb) as int)
    ensures Det(m) == 0 ==> SolveExtended(m).None?
  {
    var t := Target(m);
    HitsIsPress(Shifted(m), pa, pb);
    if Det(m) != 0 {
      CramerNecessary(m, t, pa, pb);
      MultipleRem(NumA(m, t), Det(m), pa);
      MultipleRem(NumB(m, t), Det(m), pb);
      var a := DivideIfDivisible(NumA(m, t), Det(m));
      var b := DivideIfDivisible(NumB(m, t), Det(m));
      Cancel(a.value, pa, Det(m));
      Cancel(b.value, pb, Det(m));
    }
  }

  // ---------------------------------------------------------------------
  // Part one.

  /** The pairs the brute force has tried once the outer counter is at `i`
      and the inner one at `j`: every pair below `i` in both counts, then
      `(i, k)` and `(k, i)` for `k < j`. */
  predicate Tried(pa: int, pb: int, i: int, j: int)
  {
    0 <= pa && 0 <= pb
    && ((pa < i && pb < i) || (pa == i && pb < j) || (pb == i && pa < j))
  }

  /** `found` is the least token cost over the tried pairs that hit the
      prize, `None` when none does. */
  ghost predicate BestSoFar(m: Machine, found: Option<nat>, i: int, j: int)
  {
    && (found.None? ==> forall pa: nat, pb: nat {:trigger Tried(pa, pb, i, j)} :: Tried(pa, pb, i, j) ==> !Hits(m, pa, pb))
    && (found.Some? ==>
          && (exists pa: nat, pb: nat {:trigger Tried(pa, pb, i, j)} ::
                Tried(pa, pb, i, j) && Hits(m, pa, pb) && found.value == Tokens(pa, pb))
          && (forall pa: nat, pb: nat {:trigger Tried(pa, pb, i, j)} ::
                Tried(pa, pb, i, j) && Hits(m, pa, pb) ==> found.value <= Tokens(pa, pb)))
  }

  /** The candidate update of the brute force. */
  function Improve(found: Option<nat>, candidate: nat): (r: Option<nat>)
    ensures r.Some? && r.value <= candidate
    ensures r.value == candidate || (found.Some? && r.value == found.value && found.value <= candidate)
    ensures found.Some? ==> r.value <= found.value
  {
    if found.None? || candidate < found.value then Some(candidate) else found
  }

  /** One inner step of `solve_claw_machine`: `i` presses of A with `j` of B,
      then `j` presses of A with `i` of B. */
  function TryBoth(m: Machine, found: Option<nat>, i: nat, j: nat): Option<nat>
  {
    var f1 := if Hits(m, i, j) then Improve(found, Tokens(i, j)) else found;
    if Hits(m, j, i) then Improve(f1, Tokens(j, i)) else f1
  }

  /** The inner step extends the best cost to the pairs it tries. */
  lemma TryPair(m: Machine, found: Option<nat>, i: nat, j: nat)
    requires j <= i && BestSoFar(m, found, i, j)
    ensures BestSoFar(m, TryBoth(m, found, i, j), i, j + 1)
  {
    var f2 := TryBoth(m, found, i, j);
    var k := j + 1;
    forall pa: nat, pb: nat | Tried(pa, pb, i, k)
      ensures Tried(pa, pb, i, j) || (pa == i && pb == j) || (pa == j && pb == i)
    {
    }
    if f2.Some? {
      if f2 == found {
        var pa: nat, pb: nat :| Tried(pa, pb, i, j) && Hits(m, pa, pb) && found.value == Tokens(pa, pb);
        assert Tried(pa, pb, i, k);
      } else if f2.value == Tokens(j, i) && Hits(m, j, i) {
        assert Tried(j, i, i, k);
      } else {
        assert Tried(i, j, i, k);
      }
    }
  }

  lemma NextRow(m: Machine, found: Option<nat>, i: nat)
    requires BestSoFar(m, found, i, i + 1)
    ensures BestSoFar(m, found, i + 1, 0)
  {
    var k := i + 1;
    forall pa: nat, pb: nat ensures Tried(pa, pb, k, 0) == Tried(pa, pb, i, k) {
    }
  }

  /** One row of the brute force: the inner loop over `j` in `0..=i`. */
  method ScanRow(m: Machine, found: Option<nat>, i: nat) returns (r: Option<nat>)
    requires BestSoFar(m, found, i, 0)
    ensures BestSoFar(m, r, i + 1, 0)
  {
    r := ScanColumns(m, found, i);
    NextRow(m, r, i);
  }

  /** The inner loop itself: after it, every pair with a count below or
      at `i` whose other count is `i` has been tried. */
  method ScanColumns(m: Machine, found: Option<nat>, i: nat) returns (r: Option<nat>)
    requires BestSoFar(m, found, i, 0)
    ensures BestSoFar(m, r, i, i + 1)
  {
    r := found;
    var j: nat := 0;
    while j < i + 1
      invariant j <= i + 1
      invariant BestSoFar(m, r, i, j)
    {
      TryPair(m, r, i, j);
      r := TryBoth(m, r, i, j);
      j := j + 1;
    }
  }

  /** `solve_claw_machine`: the fewest tokens over all press counts up to
      100 each that reach the prize, or `None` when none does. */
  method SolveBrute(m: Machine) returns (r: Option<nat>)
    ensures r.None? ==> forall pa: nat, pb: nat :: pa <= MaxPresses && pb <= MaxPresses ==> !Hits(m, pa, pb)
    ensures r.Some? ==> exists pa: nat, pb: nat :: pa <= MaxPresses && pb <= MaxPresses && Hits(m, pa, pb) && r.value == Tokens(pa, pb)
    ensures r.Some? ==> forall pa: nat, pb: nat :: pa <= MaxPresses && pb <= MaxPresses && Hits(m, pa, pb) ==> r.value <= Tokens(pa, pb)
  {
    r := None;
    var i: nat := 0;
    while i < MaxPresses + 1
      invariant i <= MaxPresses + 1
      invariant BestSoFar(m, r, i, 0)
    {
      r := ScanRow(m, r, i);
      i := i + 1;
    }
    Finished(m, r);
  }

  lemma Finished(m: Machine, r: Option<nat>)
    requires BestSoFar(m, r, MaxPresses + 1, 0)
    ensures r.None? ==> forall pa: nat, pb: nat :: pa <= MaxPresses && pb <= MaxPresses ==> !Hits(m, pa, pb)
    ensures r.Some? ==> exists pa: nat, pb: nat :: pa <= MaxPresses && pb <= MaxPresses && Hits(m, pa, pb) && r.value == Tokens(pa, pb)
    ensures r.Some? ==> forall pa: nat, pb: nat :: pa <= MaxPresses && pb <= MaxPresses && Hits(m, pa, pb) ==> r.value <= Tokens(pa, pb)
  {
    var k := MaxPresses + 1;
    if r.None? {
      forall pa: nat, pb: nat | pa <= MaxPresses && pb <= MaxPresses ensures !Hits(m, pa, pb) {
        assert Tried(pa, pb, k, 0);
      }
    } else {
      var pa: nat, pb: nat :| Tried(pa, pb, k, 0) && Hits(m, pa, pb) && r.value == Tokens(pa, pb);
      assert pa <= MaxPresses && pb <= MaxPresses;
      forall qa: nat, qb: nat | qa <= MaxPresses && qb <= MaxPresses && Hits(m, qa, qb)
        ensures r.value <= Tokens(qa, qb)
      {
        assert Tried(qa, qb, k, 0);
      }
    }
  }
}
