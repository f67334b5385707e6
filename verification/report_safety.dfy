/** Day 2: whether a report of levels is safe, possibly after dropping one
    level. */
module ReportSafety {
  import opened Geometry

  /** The test `is_safe` applies to positions `i - 1` and `i`: the levels
      differ, move in the direction of the first pair, by at most 3. */
  predicate StepOk(r: seq<nat>, i: nat)
    requires 1 <= i < |r|
  {
    && r[i - 1] != r[i]
    && ((r[i] < r[i - 1]) == (r[1] < r[0]))
    && AbsDiff(r[i], r[i - 1]) <= 3
  }

  /** `is_safe`: every adjacent pair passes `StepOk`. A report with fewer
      than two levels has no pairs and is safe. */
  predicate IsSafe(r: seq<nat>)
  {
    forall i :: 1 <= i < |r| ==> StepOk(r, i)
  }

  /** The signed change from level `i - 1` to level `i`. */
  function Rise(r: seq<nat>, i: nat): int
    requires 1 <= i < |r|
  {
    r[i] as int - r[i - 1] as int
  }

  /** The puzzle's notion of safe: all steps increase by 1 to 3, or all
      decrease by 1 to 3. */
  predicate GraduallyMonotone(r: seq<nat>)
  {
    || (forall i :: 1 <= i < |r| ==> 1 <= Rise(r, i) <= 3)
    || (forall i :: 1 <= i < |r| ==> 1 <= -Rise(r, i) <= 3)
  }

  lemma SafeIffGraduallyMonotone(r: seq<nat>)
    ensures IsSafe(r) <==> GraduallyMonotone(r)
  {
    if |r| >= 2 {
      if IsSafe(r) {
        if r[1] < r[0] {
          assert forall i :: 1 <= i < |r| ==> 1 <= -Rise(r, i) <= 3 by {
            forall i | 1 <= i < |r| ensures 1 <= -Rise(r, i) <= 3 {
              assert StepOk(r, i);
            }
          }
        } else {
          assert forall i :: 1 <= i < |r| ==> 1 <= Rise(r, i) <= 3 by {
            forall i | 1 <= i < |r| ensures 1 <= Rise(r, i) <= 3 {
              assert StepOk(r, i);
            }
          }
        }
      }
      if forall i :: 1 <= i < |r| ==> 1 <= Rise(r, i) <= 3 {
        forall i | 1 <= i < |r| ensures StepOk(r, i) {
          assert 1 <= Rise(r, 1) <= 3 && 1 <= Rise(r, i) <= 3;
        }
      } else if forall i :: 1 <= i < |r| ==> 1 <= -Rise(r, i) <= 3 {
        forall i | 1 <= i < |r| ensures StepOk(r, i) {
          assert 1 <= -Rise(r, 1) <= 3 && 1 <= -Rise(r, i) <= 3;
        }
      }
    }
  }

  /** `vector_from_vector_with_missing_index`: the report without the level
      at `index`, the others kept in order. */
  function RemoveAt(r: seq<nat>, index: nat): (res: seq<nat>)
    requires index < |r|
    ensures |res| == |r| - 1
    ensures forall k :: 0 <= k < index ==> res[k] == r[k]
    ensures forall k :: index <= k < |res| ==> res[k] == r[k + 1]
    ensures multiset(res) + multiset{r[index]} == multiset(r)
  {
    assert r == r[..index] + [r[index]] + r[index + 1..];
    r[..index] + r[index + 1..]
  }

  /** `is_safe_with_a_single_removal`. */
  predicate IsSafeWithOneRemoval(r: seq<nat>)
  {
    IsSafe(r) || exists i :: 0 <= i < |r| && IsSafe(RemoveAt(r, i))
  }

  /** Dropping the first level of a safe report leaves a safe report. */
  lemma DropFirstKeepsSafe(r: seq<nat>)
    requires |r| > 0 && IsSafe(r)
    ensures IsSafe(RemoveAt(r, 0))
  {
    SafeIffGraduallyMonotone(r);
    var t := RemoveAt(r, 0);
    assert forall i :: 1 <= i < |t| ==> Rise(t, i) == Rise(r, i + 1);
    SafeIffGraduallyMonotone(t);
  }

  /** Dropping the last level of a safe report leaves a safe report, so a
      report that is safe as it stands stays safe after some removal whenever
      it is not empty. */
  lemma DropLastKeepsSafe(r: seq<nat>)
    requires |r| > 0 && IsSafe(r)
    ensures IsSafe(RemoveAt(r, |r| - 1))
  {
    SafeIffGraduallyMonotone(r);
    var t := RemoveAt(r, |r| - 1);
    assert forall i :: 1 <= i < |t| ==> Rise(t, i) == Rise(r, i);
    SafeIffGraduallyMonotone(t);
  }

  /** A report is safe after one removal iff it is safe, or deleting one of
      its levels makes it gradually monotone. */
  lemma OneRemovalIffSomeDeletion(r: seq<nat>)
    ensures IsSafeWithOneRemoval(r) <==>
              GraduallyMonotone(r) || exists i :: 0 <= i < |r| && GraduallyMonotone(RemoveAt(r, i))
  {
    SafeIffGraduallyMonotone(r);
    forall i | 0 <= i < |r| ensures IsSafe(RemoveAt(r, i)) <==> GraduallyMonotone(RemoveAt(r, i)) {
      SafeIffGraduallyMonotone(RemoveAt(r, i));
    }
  }
}
