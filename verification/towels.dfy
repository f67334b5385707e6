/** Day 19: designs built from towels. A design is feasible when it is a
    concatenation of towels (each towel usable any number of times); part two
    counts the towel sequences that spell each design. Both searches grow a
    prefix `current` of the design one towel at a time, with a memo. */
module TowelPatterns {

  type Towels = seq<string>

  /** Every towel has at least one stripe. With an empty towel the Rust
      recursion calls itself on the same prefix forever. */
  predicate NonEmptyTowels(towels: Towels)
  {
    forall i :: 0 <= i < |towels| ==> |towels[i]| > 0
  }

  /** The search measure: the stripes `current` still has to grow by, plus
      one, while it is not longer than the design. */
  function Measure(target: string, current: string): nat
  {
    if |current| <= |target| then |target| + 1 - |current| else 0
  }

  // ---------------------------------------------------------------------
  // The recursions of the Rust code, without their memos.

  /** `is_design_feasible` without the `infeasible` set. */
  function Feasible(towels: Towels, target: string, current: string): bool
    requires NonEmptyTowels(towels)
    decreases Measure(target, current), 1
  {
    target == current || (current <= target && AnyFeasible(towels, target, current, 0))
  }

  /** `towels.iter().any(...)` over the towels from index `i`. */
  function AnyFeasible(towels: Towels, target: string, current: string, i: nat): bool
    requires NonEmptyTowels(towels) && current <= target && current != target && i <= |towels|
    decreases Measure(target, current), 0, |towels| - i
  {
    if i == |towels| then false
    else Feasible(towels, target, current + towels[i]) || AnyFeasible(towels, target, current, i + 1)
  }

  /** `count_nr_of_feasible_designs` without its cache. */
  function Count(towels: Towels, target: string, current: string): nat
    requires NonEmptyTowels(towels)
    decreases Measure(target, current), 1
  {
    if target == current then 1
    else if !(current <= target) then 0
    else SumCounts(towels, target, current, 0)
  }

  /** `towels.iter().map(...).sum()` over the towels from index `i`. */
  function SumCounts(towels: Towels, target: string, current: string, i: nat): nat
    requires NonEmptyTowels(towels) && current <= target && current != target && i <= |towels|
    decreases Measure(target, current), 0, |towels| - i
  {
    if i == |towels| then 0
    else Count(towels, target, current + towels[i]) + SumCounts(towels, target, current, i + 1)
  }

  // ---------------------------------------------------------------------
  // What the recursions compute: towel arrangements.

  /** The towels with indices `s`, laid end to end. */
  function Concat(towels: Towels, s: seq<nat>): string
    requires forall k :: 0 <= k < |s| ==> s[k] < |towels|
  {
    if |s| == 0 then [] else towels[s[0]] + Concat(towels, s[1..])
  }

  /** `s` is a sequence of towel indices whose towels spell `rest`. */
  predicate IsArrangement(towels: Towels, s: seq<nat>, rest: string)
  {
    (forall k :: 0 <= k < |s| ==> s[k] < |towels|) && Concat(towels, s) == rest
  }

  /** `[i] + s` for every `s` of `S`. */
  ghost function Prepend(i: nat, S: set<seq<nat>>): set<seq<nat>>
  {
    set s | s in S :: [i] + s
  }

  /** Every arrangement of `rest`, built along the recursion. */
  ghost function Arrangements(towels: Towels, rest: string): set<seq<nat>>
    requires NonEmptyTowels(towels)
    decreases |rest|, 1
  {
    if |rest| == 0 then {[]} else ArrangementsFrom(towels, rest, 0)
  }

  /** The arrangements of a non-empty `rest` whose first towel has index at
      least `i`. */
  ghost function ArrangementsFrom(towels: Towels, rest: string, i: nat): set<seq<nat>>
    requires NonEmptyTowels(towels) && |rest| > 0 && i <= |towels|
    decreases |rest|, 0, |towels| - i
  {
    if i == |towels| then {}
    else
      var first := if towels[i] <= rest then Prepend(i, Arrangements(towels, rest[|towels[i]|..])) else {};
      first + ArrangementsFrom(towels, rest, i + 1)
  }

  /** Prepending an index is injective, so it keeps the size of a set. */
  lemma {:induction false} PrependCount(i: nat, S: set<seq<nat>>)
    ensures |Prepend(i, S)| == |S|
    decreases |S|
  {
    if S != {} {
      var x :| x in S;
      var smaller := S - {x};
      PrependCount(i, smaller);
      assert Prepend(i, S) == Prepend(i, smaller) + {[i] + x};
      assert [i] + x !in Prepend(i, smaller) by {
        forall y | y in smaller ensures [i] + y != [i] + x {
          assert ([i] + y)[1..] == y && ([i] + x)[1..] == x;
        }
      }
    }
  }

  /** Every arrangement from index `i` on starts with an index `>= i`. */
  lemma {:induction false} FromStartsAt(towels: Towels, rest: string, i: nat, s: seq<nat>)
    requires NonEmptyTowels(towels) && |rest| > 0 && i <= |towels|
    requires s in ArrangementsFrom(towels, rest, i)
    ensures |s| > 0 && s[0] >= i
    decreases |towels| - i
  {
    if i < |towels| {
      var first := if towels[i] <= rest then Prepend(i, Arrangements(towels, rest[|towels[i]|..])) else {};
      if s !in first {
        FromStartsAt(towels, rest, i + 1, s);
      }
    }
  }

  /** The size of `ArrangementsFrom`: the first part and the rest are
      disjoint, since they differ in the first index. */
  lemma FromSplit(towels: Towels, rest: string, i: nat)
    requires NonEmptyTowels(towels) && |rest| > 0 && i < |towels|
    ensures |ArrangementsFrom(towels, rest, i)|
            == (if towels[i] <= rest then |Arrangements(towels, rest[|towels[i]|..])| else 0)
               + |ArrangementsFrom(towels, rest, i + 1)|
  {
    var later := ArrangementsFrom(towels, rest, i + 1);
    if towels[i] <= rest {
      var first := Prepend(i, Arrangements(towels, rest[|towels[i]|..]));
      PrependCount(i, Arrangements(towels, rest[|towels[i]|..]));
      assert first !! later by {
        forall s | s in later ensures s !in first {
          FromStartsAt(towels, rest, i + 1, s);
        }
      }
    }
  }

  /** The prefix `current + t` of the design is what remains after taking
      the towel `t` off the remainder of `current`. */
  lemma PrefixStep(target: string, current: string, t: string)
    requires current <= target
    ensures (current + t <= target) == (t <= target[|current|..])
    ensures current + t <= target ==> target[|current + t|..] == target[|current|..][|t|..]
  {
    var rest := target[|current|..];
    assert target == current + rest;
    if t <= rest {
      assert current + t == target[..|current + t|];
    }
    if current + t <= target {
      assert t == rest[..|t|];
    }
  }

  /** `Count` is the number of arrangements of what the design still needs,
      and zero when `current` is not a prefix of the design. */
  lemma {:induction false} CountIsArrangements(towels: Towels, target: string, current: string)
    requires NonEmptyTowels(towels)
    ensures Count(towels, target, current)
            == if current <= target then |Arrangements(towels, target[|current|..])| else 0
    decreases Measure(target, current), 1
  {
    if target != current && current <= target {
      SumIsArrangements(towels, target, current, 0);
    }
  }

  lemma {:induction false} SumIsArrangements(towels: Towels, target: string, current: string, i: nat)
    requires NonEmptyTowels(towels) && current <= target && current != target && i <= |towels|
    ensures |target[|current|..]| > 0
    ensures SumCounts(towels, target, current, i) == |ArrangementsFrom(towels, target[|current|..], i)|
    decreases Measure(target, current), 0, |towels| - i
  {
    var rest := target[|current|..];
    if i < |towels| {
      var t := towels[i];
      SumIsArrangements(towels, target, current, i + 1);
      CountIsArrangements(towels, target, current + t);
      PrefixStep(target, current, t);
      FromSplit(towels, rest, i);
    }
  }

  /** The arrangements built along the recursion are exactly the index
      sequences whose towels spell `rest`. */
  lemma {:induction false} ArrangementsSound(towels: Towels, rest: string, s: seq<nat>)
    requires NonEmptyTowels(towels) && s in Arrangements(towels, rest)
    ensures IsArrangement(towels, s, rest)
    decreases |rest|
  {
    if |rest| > 0 {
      var i := FromMember(towels, rest, 0, s);
      var t := towels[i];
      var tail := s[1..];
      ArrangementsSound(towels, rest[|t|..], tail);
      assert rest == t + rest[|t|..];
    }
  }

  /** An arrangement from index `j` on starts with a towel that begins
      `rest`, followed by an arrangement of what is left. */
  lemma {:induction false} FromMember(towels: Towels, rest: string, j: nat, s: seq<nat>) returns (i: nat)
    requires NonEmptyTowels(towels) && |rest| > 0 && j <= |towels|
    requires s in ArrangementsFrom(towels, rest, j)
    ensures |s| > 0 && i == s[0] && j <= i < |towels| && towels[i] <= rest
    ensures s[1..] in Arrangements(towels, rest[|towels[i]|..])
    decreases |towels| - j
  {
    var first := if towels[j] <= rest then Prepend(j, Arrangements(towels, rest[|towels[j]|..])) else {};
    if s in first {
      var x :| x in Arrangements(towels, rest[|towels[j]|..]) && s == [j] + x;
      assert s[1..] == x;
      i := j;
    } else {
      i := FromMember(towels, rest, j + 1, s);
    }
  }

  lemma {:induction false} ArrangementsComplete(towels: Towels, rest: string, s: seq<nat>)
    requires NonEmptyTowels(towels) && IsArrangement(towels, s, rest)
    ensures s in Arrangements(towels, rest)
    decreases |rest|
  {
    if |s| > 0 {
      var i := s[0];
      var t := towels[i];
      assert rest == t + Concat(towels, s[1..]);
      assert t <= rest;
      assert rest[|t|..] == Concat(towels, s[1..]);
      ArrangementsComplete(towels, rest[|t|..], s[1..]);
      assert s == [i] + s[1..];
      FromIncludes(towels, rest, 0, i, s[1..]);
    }
  }

  /** `ArrangementsFrom(rest, j)` holds every arrangement that starts with a
      fitting towel of index `i >= j`. */
  lemma {:induction false} FromIncludes(towels: Towels, rest: string, j: nat, i: nat, x: seq<nat>)
    requires NonEmptyTowels(towels) && |rest| > 0 && j <= i < |towels| && towels[i] <= rest
    requires x in Arrangements(towels, rest[|towels[i]|..])
    ensures [i] + x in ArrangementsFrom(towels, rest, j)
    decreases i - j
  {
    if j < i {
      FromIncludes(towels, rest, j + 1, i, x);
    }
  }

  /** `Arrangements` is the set of index sequences spelling `rest`. */
  lemma ArrangementsIff(towels: Towels, rest: string, s: seq<nat>)
    requires NonEmptyTowels(towels)
    ensures s in Arrangements(towels, rest) <==> IsArrangement(towels, s, rest)
  {
    if s in Arrangements(towels, rest) {
      ArrangementsSound(towels, rest, s);
    }
    if IsArrangement(towels, s, rest) {
      ArrangementsComplete(towels, rest, s);
    }
  }

  /** The part-one search succeeds exactly when its count is positive. */
  lemma {:induction false} FeasibleIffCount(towels: Towels, target: string, current: string)
    requires NonEmptyTowels(towels)
    ensures Feasible(towels, target, current) <==> Count(towels, target, current) > 0
    decreases Measure(target, current), 1
  {
    if target != current && current <= target {
      AnyIffSum(towels, target, current, 0);
    }
  }

  lemma {:induction false} AnyIffSum(towels: Towels, target: string, current: string, i: nat)
    requires NonEmptyTowels(towels) && current <= target && current != target && i <= |towels|
    ensures AnyFeasible(towels, target, current, i) <==> SumCounts(towels, target, current, i) > 0
    decreases Measure(target, current), 0, |towels| - i
  {
    if i < |towels| {
      FeasibleIffCount(towels, target, current + towels[i]);
      AnyIffSum(towels, target, current, i + 1);
    }
  }

  /** `is_design_feasible` holds exactly when the design is `current`
      followed by a concatenation of towels. */
  lemma FeasibleIff(towels: Towels, target: string, current: string)
    requires NonEmptyTowels(towels)
    ensures Feasible(towels, target, current)
            <==> current <= target && exists s :: IsArrangement(towels, s, target[|current|..])
  {
    FeasibleIffCount(towels, target, current);
    CountIsArrangements(towels, target, current);
    if current <= target {
      var rest := target[|current|..];
      if Feasible(towels, target, current) {
        var s :| s in Arrangements(towels, rest);
        ArrangementsIff(towels, rest, s);
      }
      if exists s :: IsArrangement(towels, s, rest) {
        var s :| IsArrangement(towels, s, rest);
        ArrangementsIff(towels, rest, s);
      }
    }
  }

  // ---------------------------------------------------------------------
  // The memoised searches.

  /** The `infeasible` set holds only prefixes that cannot be completed. */
  ghost predicate InfeasibleOk(towels: Towels, target: string, infeasible: set<string>)
    requires NonEmptyTowels(towels)
  {
    forall x :: x in infeasible ==> !Feasible(towels, target, x)
  }

  /** `is_design_feasible`: the plain recursion's answer; the prefixes it
      adds to `infeasible` are ones the plain recursion rejects. */
  method IsDesignFeasible(towels: Towels, target: string, current: string, infeasible0: set<string>)
    returns (r: bool, infeasible: set<string>)
    requires NonEmptyTowels(towels) && InfeasibleOk(towels, target, infeasible0)
    ensures r == Feasible(towels, target, current)
    ensures InfeasibleOk(towels, target, infeasible) && infeasible0 <= infeasible
    ensures !r ==> current in infeasible
    decreases Measure(target, current), 1
  {
    infeasible := infeasible0;
    if target == current {
      r := true;
    } else if current in infeasible || !(current <= target) {
      r := false;
    } else {
      r, infeasible := AnyTowel(towels, target, current, infeasible);
    }
    if !r {
      infeasible := infeasible + {current};
    }
  }

  /** The `any` over the towels, stopping at the first feasible one. */
  method AnyTowel(towels: Towels, target: string, current: string, infeasible0: set<string>)
    returns (r: bool, infeasible: set<string>)
    requires NonEmptyTowels(towels) && InfeasibleOk(towels, target, infeasible0)
    requires current <= target && current != target
    ensures r == AnyFeasible(towels, target, current, 0)
    ensures InfeasibleOk(towels, target, infeasible) && infeasible0 <= infeasible
    decreases Measure(target, current), 0
  {
    infeasible := infeasible0;
    r := false;
    var i := 0;
    while i < |towels| && !r
      invariant i <= |towels| && infeasible0 <= infeasible
      invariant InfeasibleOk(towels, target, infeasible)
      invariant AnyFeasible(towels, target, current, 0) == (r || AnyFeasible(towels, target, current, i))
    {
      r, infeasible := IsDesignFeasible(towels, target, current + towels[i], infeasible);
      i := i + 1;
    }
  }

  /** The cache holds only exact counts. */
  ghost predicate CacheOk(towels: Towels, target: string, cache: map<string, nat>)
    requires NonEmptyTowels(towels)
  {
    forall x :: x in cache ==> cache[x] == Count(towels, target, x)
  }

  /** `count_nr_of_feasible_designs`: the plain recursion's count, with a
      cache that only gains exact entries. */
  method CountDesigns(towels: Towels, target: string, current: string, cache0: map<string, nat>)
    returns (r: nat, cache: map<string, nat>)
    requires NonEmptyTowels(towels) && CacheOk(towels, target, cache0)
    ensures r == Count(towels, target, current)
    ensures CacheOk(towels, target, cache) && cache0.Keys <= cache.Keys
    decreases Measure(target, current), 1
  {
    if target == current {
      return 1, cache0;
    }
    if current in cache0 {
      return cache0[current], cache0;
    }
    cache := cache0;
    if current <= target {
      r, cache := SumTowels(towels, target, current, cache);
    } else {
      r := 0;
    }
    cache := cache[current := r];
  }

  /** The `sum` over the towels of the counts after each. */
  method SumTowels(towels: Towels, target: string, current: string, cache0: map<string, nat>)
    returns (r: nat, cache: map<string, nat>)
    requires NonEmptyTowels(towels) && CacheOk(towels, target, cache0)
    requires current <= target && current != target
    ensures r == SumCounts(towels, target, current, 0)
    ensures CacheOk(towels, target, cache) && cache0.Keys <= cache.Keys
    decreases Measure(target, current), 0
  {
    cache := cache0;
    r := 0;
    var i := 0;
    while i < |towels|
      invariant i <= |towels| && cache0.Keys <= cache.Keys
      invariant CacheOk(towels, target, cache)
      invariant r + SumCounts(towels, target, current, i) == SumCounts(towels, target, current, 0)
    {
      var c;
      c, cache := CountDesigns(towels, target, current + towels[i], cache);
      r := r + c;
      i := i + 1;
    }
  }

  /** The designs among the first `n` that are feasible, by index. */
  ghost function FeasibleDesigns(towels: Towels, designs: seq<string>, n: nat): set<nat>
    requires NonEmptyTowels(towels) && n <= |designs|
  {
    set i: nat | i < n && exists s :: IsArrangement(towels, s, designs[i])
  }

  /** `solve1`: the number of designs that can be made, each searched with
      a fresh `infeasible` set. */
  method Solve1(towels: Towels, designs: seq<string>) returns (count: nat)
    requires NonEmptyTowels(towels)
    ensures count == |FeasibleDesigns(towels, designs, |designs|)|
  {
    count := 0;
    var i := 0;
    while i < |designs|
      invariant i <= |designs|
      invariant count == |FeasibleDesigns(towels, designs, i)|
    {
      var ok, infeasible := IsDesignFeasible(towels, designs[i], [], {});
      FeasibleIff(towels, designs[i], []);
      assert designs[i][0..] == designs[i];
      if ok {
        assert FeasibleDesigns(towels, designs, i + 1) == FeasibleDesigns(towels, designs, i) + {i};
        count := count + 1;
      } else {
        assert FeasibleDesigns(towels, designs, i + 1) == FeasibleDesigns(towels, designs, i);
      }
      i := i + 1;
    }
  }

  /** The number of ways to make each of the first `n` designs, summed. */
  ghost function TotalWays(towels: Towels, designs: seq<string>, n: nat): nat
    requires NonEmptyTowels(towels) && n <= |designs|
  {
    if n == 0 then 0 else TotalWays(towels, designs, n - 1) + |Arrangements(towels, designs[n - 1])|
  }

  /** `solve2`: the towel arrangements of every design, summed, each design
      counted with a fresh cache. */
  method Solve2(towels: Towels, designs: seq<string>) returns (total: nat)
    requires NonEmptyTowels(towels)
    ensures total == TotalWays(towels, designs, |designs|)
  {
    total := 0;
    var i := 0;
    while i < |designs|
      invariant i <= |designs|
      invariant total == TotalWays(towels, designs, i)
    {
      var c, cache := CountDesigns(towels, designs[i], [], map[]);
      CountIsArrangements(towels, designs[i], []);
      assert designs[i][0..] == designs[i];
      total := total + c;
      i := i + 1;
    }
  }
}
