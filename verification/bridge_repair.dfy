/** Day 7: whether operators inserted left to right between the numbers of
    a calibration equation can produce its test value. */
module BridgeRepair {
  import opened Decimal

  datatype Op = Plus | Times | Join

  const TwoOps: set<Op> := {Plus, Times}
  const ThreeOps: set<Op> := {Plus, Times, Join}

  /** One operator applied to the running value; `Join` is the digit
      concatenation of the third operator. */
  function Apply(op: Op, acc: nat, c: nat): nat
  {
    match op
    case Plus => acc + c
    case Times => acc * c
    case Join => Concat(acc, c)
  }

  /** Evaluate strictly left to right from `acc`. */
  function Eval(acc: nat, comps: seq<nat>, ops: seq<Op>): nat
    requires |ops| == |comps|
    decreases |comps|
  {
    if |comps| == 0 then acc else Eval(Apply(ops[0], acc, comps[0]), comps[1..], ops[1..])
  }

  /** Some choice of operators from `allowed` turns `acc` and `comps` into
      `target`: the meaning of a solvable equation. */
  ghost predicate Reaches(target: nat, acc: nat, comps: seq<nat>, allowed: set<Op>)
  {
    exists ops: seq<Op> :: |ops| == |comps| && (forall i :: 0 <= i < |ops| ==> ops[i] in allowed)
                           && Eval(acc, comps, ops) == target
  }

  predicate Positive(comps: seq<nat>)
  {
    forall i :: 0 <= i < |comps| ==> comps[i] >= 1
  }

  /** `is_solvable`: try `+` then `*`, giving up once the running value
      exceeds the target. */
  function IsSolvable(target: nat, acc: nat, comps: seq<nat>): bool
    decreases |comps|
  {
    if target == acc && |comps| == 0 then true
    else if |comps| == 0 || target < acc then false
    else IsSolvable(target, acc + comps[0], comps[1..]) || IsSolvable(target, acc * comps[0], comps[1..])
  }

  /** `is_solvable_with_third_operator`: the same search with concatenation
      as a third choice. */
  function IsSolvableWithJoin(target: nat, acc: nat, comps: seq<nat>): bool
    decreases |comps|
  {
    if target == acc && |comps| == 0 then true
    else if |comps| == 0 || target < acc then false
    else (|| IsSolvableWithJoin(target, acc + comps[0], comps[1..])
          || IsSolvableWithJoin(target, acc * comps[0], comps[1..])
          || IsSolvableWithJoin(target, Concat(acc, comps[0]), comps[1..]))
  }

  /** With positive numbers no operator lowers the running value, which is
      what makes the `target < acc` cut-off sound. */
  lemma ApplyGrows(op: Op, acc: nat, c: nat)
    requires c >= 1
    ensures Apply(op, acc, c) >= acc
  {
    if op == Join {
      ConcatArithmetic(acc, c);
      assert Pow10(|Digits(c)|) >= 1;
      assert acc * Pow10(|Digits(c)|) >= acc;
    } else if op == Times {
      assert acc * c >= acc * 1;
    }
  }

  lemma {:induction false} EvalGrows(acc: nat, comps: seq<nat>, ops: seq<Op>)
    requires |ops| == |comps| && Positive(comps)
    ensures Eval(acc, comps, ops) >= acc
    decreases |comps|
  {
    if |comps| > 0 {
      ApplyGrows(ops[0], acc, comps[0]);
      EvalGrows(Apply(ops[0], acc, comps[0]), comps[1..], ops[1..]);
    }
  }

  /** One operator chosen, the rest reached: the whole is reached. */
  lemma ReachesCons(target: nat, acc: nat, comps: seq<nat>, allowed: set<Op>, op: Op)
    requires |comps| > 0 && op in allowed
    requires Reaches(target, Apply(op, acc, comps[0]), comps[1..], allowed)
    ensures Reaches(target, acc, comps, allowed)
  {
    var rest :| |rest| == |comps[1..]| && (forall i :: 0 <= i < |rest| ==> rest[i] in allowed)
                && Eval(Apply(op, acc, comps[0]), comps[1..], rest) == target;
    var ops := [op] + rest;
    assert ops[1..] == rest;
    assert Eval(acc, comps, ops) == target;
  }

  /** A reaching choice starts with some operator and reaches the rest. */
  lemma ReachesUncons(target: nat, acc: nat, comps: seq<nat>, allowed: set<Op>)
    requires |comps| > 0 && Reaches(target, acc, comps, allowed)
    ensures exists op :: op in allowed && Reaches(target, Apply(op, acc, comps[0]), comps[1..], allowed)
  {
    var ops :| |ops| == |comps| && (forall i :: 0 <= i < |ops| ==> ops[i] in allowed)
               && Eval(acc, comps, ops) == target;
    var rest := ops[1..];
    assert forall i :: 0 <= i < |rest| ==> rest[i] == ops[i + 1];
    assert Eval(Apply(ops[0], acc, comps[0]), comps[1..], rest) == target;
  }

  /** For positive numbers, `is_solvable` holds exactly when some choice of
      `+` and `*` produces the target. */
  lemma {:induction false} SolvableIffReaches(target: nat, acc: nat, comps: seq<nat>)
    requires Positive(comps)
    ensures IsSolvable(target, acc, comps) <==> Reaches(target, acc, comps, TwoOps)
    decreases |comps|
  {
    if |comps| == 0 {
      var none: seq<Op> := [];
      assert Eval(acc, comps, none) == acc;
    } else {
      var l, r := acc + comps[0], acc * comps[0];
      assert Positive(comps[1..]);
      SolvableIffReaches(target, l, comps[1..]);
      SolvableIffReaches(target, r, comps[1..]);
      if IsSolvable(target, acc, comps) {
        if IsSolvable(target, l, comps[1..]) {
          ReachesCons(target, acc, comps, TwoOps, Plus);
        } else {
          ReachesCons(target, acc, comps, TwoOps, Times);
        }
      }
      if Reaches(target, acc, comps, TwoOps) {
        ReachesUncons(target, acc, comps, TwoOps);
        var op :| op in TwoOps && Reaches(target, Apply(op, acc, comps[0]), comps[1..], TwoOps);
        var ops :| |ops| == |comps| && (forall i :: 0 <= i < |ops| ==> ops[i] in TwoOps)
                   && Eval(acc, comps, ops) == target;
        EvalGrows(acc, comps, ops);
      }
    }
  }

  /** The same for the three-operator search. */
  lemma SolvableWithJoinIffReaches(target: nat, acc: nat, comps: seq<nat>)
    requires Positive(comps)
    ensures IsSolvableWithJoin(target, acc, comps) <==> Reaches(target, acc, comps, ThreeOps)
  {
    if IsSolvableWithJoin(target, acc, comps) {
      SolvableWithJoinReaches(target, acc, comps);
    }
    if Reaches(target, acc, comps, ThreeOps) {
      ReachesSolvableWithJoin(target, acc, comps);
    }
  }

  lemma {:induction false} SolvableWithJoinReaches(target: nat, acc: nat, comps: seq<nat>)
    requires IsSolvableWithJoin(target, acc, comps)
    ensures Reaches(target, acc, comps, ThreeOps)
    decreases |comps|
  {
    if |comps| == 0 {
      var none: seq<Op> := [];
      assert Eval(acc, comps, none) == acc;
    } else if IsSolvableWithJoin(target, acc + comps[0], comps[1..]) {
      SolvableWithJoinReaches(target, acc + comps[0], comps[1..]);
      ReachesCons(target, acc, comps, ThreeOps, Plus);
    } else if IsSolvableWithJoin(target, acc * comps[0], comps[1..]) {
      SolvableWithJoinReaches(target, acc * comps[0], comps[1..]);
      ReachesCons(target, acc, comps, ThreeOps, Times);
    } else {
      SolvableWithJoinReaches(target, Concat(acc, comps[0]), comps[1..]);
      ReachesCons(target, acc, comps, ThreeOps, Join);
    }
  }

  lemma {:induction false} ReachesSolvableWithJoin(target: nat, acc: nat, comps: seq<nat>)
    requires Positive(comps) && Reaches(target, acc, comps, ThreeOps)
    ensures IsSolvableWithJoin(target, acc, comps)
    decreases |comps|
  {
    var ops :| |ops| == |comps| && (forall i :: 0 <= i < |ops| ==> ops[i] in ThreeOps)
               && Eval(acc, comps, ops) == target;
    EvalGrows(acc, comps, ops);
    if |comps| > 0 {
      ReachesUncons(target, acc, comps, ThreeOps);
      var op :| op in ThreeOps && Reaches(target, Apply(op, acc, comps[0]), comps[1..], ThreeOps);
      assert Positive(comps[1..]);
      ReachesSolvableWithJoin(target, Apply(op, acc, comps[0]), comps[1..]);
      match op
      case Plus => assert IsSolvableWithJoin(target, acc + comps[0], comps[1..]);
      case Times => assert IsSolvableWithJoin(target, acc * comps[0], comps[1..]);
      case Join => assert IsSolvableWithJoin(target, Concat(acc, comps[0]), comps[1..]);
    }
  }

  /** The third operator only adds choices: an equation solvable with `+`
      and `*` is solvable with all three. */
  lemma {:induction false} SolvableImpliesSolvableWithJoin(target: nat, acc: nat, comps: seq<nat>)
    ensures IsSolvable(target, acc, comps) ==> IsSolvableWithJoin(target, acc, comps)
    decreases |comps|
  {
    if |comps| > 0 {
      SolvableImpliesSolvableWithJoin(target, acc + comps[0], comps[1..]);
      SolvableImpliesSolvableWithJoin(target, acc * comps[0], comps[1..]);
    }
  }

  /** With a zero among the numbers the cut-off is unsound: `5 * 0 = 0`
      reaches 0, yet `is_solvable` gives up because 0 < 5. */
  lemma ZeroDefeatsCutOff()
    ensures Eval(5, [0], [Times]) == 0
    ensures !IsSolvable(0, 5, [0])
  {
  }

  /** The search without the cut-off, sound for every input. */
  function IsSolvableExact(target: nat, acc: nat, comps: seq<nat>): bool
    decreases |comps|
  {
    if |comps| == 0 then target == acc
    else IsSolvableExact(target, acc + comps[0], comps[1..]) || IsSolvableExact(target, acc * comps[0], comps[1..])
  }

  lemma {:induction false} ExactIffReaches(target: nat, acc: nat, comps: seq<nat>)
    ensures IsSolvableExact(target, acc, comps) <==> Reaches(target, acc, comps, TwoOps)
    decreases |comps|
  {
    if |comps| == 0 {
      var none: seq<Op> := [];
      assert Eval(acc, comps, none) == acc;
    } else {
      var l, r := acc + comps[0], acc * comps[0];
      ExactIffReaches(target, l, comps[1..]);
      ExactIffReaches(target, r, comps[1..]);
      if IsSolvableExact(target, acc, comps) {
        if IsSolvableExact(target, l, comps[1..]) {
          ReachesCons(target, acc, comps, TwoOps, Plus);
        } else {
          ReachesCons(target, acc, comps, TwoOps, Times);
        }
      }
      if Reaches(target, acc, comps, TwoOps) {
        ReachesUncons(target, acc, comps, TwoOps);
      }
    }
  }

  /** `Join` is `acc * 10^digits(c) + c`. */
  lemma JoinArithmetic(acc: nat, c: nat)
    ensures Apply(Join, acc, c) == acc * Pow10(|Digits(c)|) + c
  {
    ConcatArithmetic(acc, c);
  }
}
