/** Day 11: stones that change on every blink. A 0 becomes 1, a stone with
    an even number of decimal digits splits into its two halves, and any
    other stone is multiplied by 2024. The program counts stones after a
    number of blinks, one initial stone at a time, with a cache. */
module StoneBlinks {
  import opened Decimal

  /** What one stone turns into at one blink. */
  function BlinkOne(stone: nat): (r: seq<nat>)
    ensures 1 <= |r| <= 2
  {
    if stone == 0 then [1]
    else if |Digits(stone)| % 2 == 0 then
      var h := |Digits(stone)| / 2;
      [Value(Digits(stone)[..h]), Value(Digits(stone)[h..])]
    else [stone * 2024]
  }

  /** A stone with an even number `k` of digits splits into the quotient and
      the remainder of a division by 10^(k/2). */
  lemma SplitHalves(stone: nat)
    requires stone != 0 && |Digits(stone)| % 2 == 0
    ensures var k := |Digits(stone)|;
            BlinkOne(stone) == [stone / Pow10(k / 2), stone % Pow10(k / 2)]
  {
    var k := |Digits(stone)|;
    SplitDigits(stone, k / 2);
    assert k - k / 2 == k / 2;
  }

  /** One blink of the whole row, order kept. */
  function BlinkAll(stones: seq<nat>): (r: seq<nat>)
    ensures |stones| <= |r| <= 2 * |stones|
  {
    if |stones| == 0 then [] else BlinkOne(stones[0]) + BlinkAll(stones[1..])
  }

  /** The row after `n` blinks. */
  function Blinks(stones: seq<nat>, n: nat): seq<nat>
    decreases n
  {
    if n == 0 then stones else Blinks(BlinkAll(stones), n - 1)
  }

  /** `do_solve` without its cache: the number of stones that `stone` has
      become once the blink count `blink` reaches `maxDepth`. */
  function Count(stone: nat, blink: nat, maxDepth: nat): nat
    requires blink <= maxDepth
    decreases maxDepth - blink
  {
    if blink == maxDepth then 1
    else if stone == 0 then Count(1, blink + 1, maxDepth)
    else if |Digits(stone)| % 2 == 0 then
      var h := |Digits(stone)| / 2;
      Count(Value(Digits(stone)[..h]), blink + 1, maxDepth) + Count(Value(Digits(stone)[h..]), blink + 1, maxDepth)
    else Count(stone * 2024, blink + 1, maxDepth)
  }

  /** No stone ever disappears: the count is at least one. */
  lemma {:induction false} CountPositive(stone: nat, blink: nat, maxDepth: nat)
    requires blink <= maxDepth
    ensures Count(stone, blink, maxDepth) >= 1
    decreases maxDepth - blink
  {
    if blink < maxDepth {
      if stone == 0 {
        CountPositive(1, blink + 1, maxDepth);
      } else if |Digits(stone)| % 2 == 0 {
        var h := |Digits(stone)| / 2;
        CountPositive(Value(Digits(stone)[..h]), blink + 1, maxDepth);
      } else {
        CountPositive(stone * 2024, blink + 1, maxDepth);
      }
    }
  }

  /** The count depends only on the number of blinks left. */
  lemma {:induction false} CountShift(stone: nat, blink: nat, maxDepth: nat)
    requires blink <= maxDepth
    ensures Count(stone, blink, maxDepth) == Count(stone, 0, maxDepth - blink)
    decreases maxDepth - blink
  {
    if blink < maxDepth {
      var m := maxDepth - blink;
      if stone == 0 {
        CountShift(1, blink + 1, maxDepth);
        CountShift(1, 1, m);
      } else if |Digits(stone)| % 2 == 0 {
        var h := |Digits(stone)| / 2;
        var a, b := Value(Digits(stone)[..h]), Value(Digits(stone)[h..]);
        CountShift(a, blink + 1, maxDepth);
        CountShift(a, 1, m);
        CountShift(b, blink + 1, maxDepth);
        CountShift(b, 1, m);
      } else {
        CountShift(stone * 2024, blink + 1, maxDepth);
        CountShift(stone * 2024, 1, m);
      }
    }
  }

  lemma {:induction false} BlinkAllAppend(xs: seq<nat>, ys: seq<nat>)
    ensures BlinkAll(xs + ys) == BlinkAll(xs) + BlinkAll(ys)
    decreases |xs|
  {
    if |xs| > 0 {
      assert (xs + ys)[1..] == xs[1..] + ys;
      BlinkAllAppend(xs[1..], ys);
    } else {
      assert xs + ys == ys;
    }
  }

  /** Stones blink independently: the rows of a concatenation concatenate. */
  lemma {:induction false} BlinksAppend(xs: seq<nat>, ys: seq<nat>, n: nat)
    ensures Blinks(xs + ys, n) == Blinks(xs, n) + Blinks(ys, n)
    decreases n
  {
    if n > 0 {
      BlinkAllAppend(xs, ys);
      BlinksAppend(BlinkAll(xs), BlinkAll(ys), n - 1);
    }
  }

  /** The number of stones `n` blinks make of one stone. */
  function RowCount(stones: seq<nat>, n: nat): (r: nat)
  {
    if |stones| == 0 then 0 else Count(stones[0], 0, n) + RowCount(stones[1..], n)
  }

  lemma {:induction false} RowCountAppend(xs: seq<nat>, ys: seq<nat>, n: nat)
    ensures RowCount(xs + ys, n) == RowCount(xs, n) + RowCount(ys, n)
    decreases |xs|
  {
    if |xs| > 0 {
      assert (xs + ys)[1..] == xs[1..] + ys;
      RowCountAppend(xs[1..], ys, n);
    } else {
      assert xs + ys == ys;
    }
  }

  /** One stone's count after `n + 1` blinks is the count, after `n`, of
      what it becomes at the first blink. */
  lemma CountStep(stone: nat, n: nat)
    ensures Count(stone, 0, n + 1) == RowCount(BlinkOne(stone), n)
  {
    var one := BlinkOne(stone);
    if stone == 0 {
      CountShift(1, 1, n + 1);
    } else if |Digits(stone)| % 2 == 0 {
      var h := |Digits(stone)| / 2;
      assert one == [Value(Digits(stone)[..h]), Value(Digits(stone)[h..])];
      assert Count(stone, 0, n + 1) == Count(one[0], 1, n + 1) + Count(one[1], 1, n + 1);
      CountShift(one[0], 1, n + 1);
      CountShift(one[1], 1, n + 1);
      assert one[1..] == [one[1]] && [one[1]][1..] == [];
      assert RowCount([one[1]], n) == Count(one[1], 0, n) + RowCount([], n);
    } else {
      CountShift(stone * 2024, 1, n + 1);
    }
  }

  /** The count `do_solve` computes is the length of the row that `n`
      blinks make of the stones: the puzzle's own definition. */
  lemma {:induction false} RowCountIsLength(stones: seq<nat>, n: nat)
    ensures RowCount(stones, n) == |Blinks(stones, n)|
    decreases n, |stones|
  {
    if |stones| == 0 {
      assert Blinks(stones, n) == [] by { EmptyStaysEmpty(n); }
    } else if n == 0 {
      RowCountOnes(stones);
    } else {
      var x, rest := stones[0], stones[1..];
      assert |Blinks(stones, n)| == |Blinks([x], n)| + |Blinks(rest, n)| by {
        assert stones == [x] + rest;
        BlinksAppend([x], rest, n);
      }
      assert |Blinks([x], n)| == Count(x, 0, n) by {
        assert BlinkAll([x]) == BlinkOne(x) by {
          assert [x][1..] == [];
        }
        RowCountIsLength(BlinkOne(x), n - 1);
        CountStep(x, n - 1);
      }
      RowCountIsLength(rest, n);
    }
  }

  lemma {:induction false} EmptyStaysEmpty(n: nat)
    ensures Blinks([], n) == []
  {
    if n > 0 {
      EmptyStaysEmpty(n - 1);
    }
  }

  lemma {:induction false} RowCountOnes(stones: seq<nat>)
    ensures RowCount(stones, 0) == |stones|
    decreases |stones|
  {
    if |stones| > 0 {
      RowCountOnes(stones[1..]);
    }
  }

  /** The cache holds only exact counts for `maxDepth`. */
  ghost predicate CacheOk(cache: map<(nat, nat), nat>, maxDepth: nat)
  {
    forall key :: key in cache ==> key.1 <= maxDepth && cache[key] == Count(key.0, key.1, maxDepth)
  }

  /** `do_solve`: the count for `(stone, blink)`, taken from the cache when
      present and otherwise computed and stored. The cache only ever gains
      exact entries, so the memoised result is the plain recursion's. */
  method DoSolve(stone: nat, blink: nat, maxDepth: nat, cache0: map<(nat, nat), nat>)
    returns (r: nat, cache: map<(nat, nat), nat>)
    requires blink <= maxDepth && CacheOk(cache0, maxDepth)
    ensures r == Count(stone, blink, maxDepth)
    ensures CacheOk(cache, maxDepth) && cache0.Keys <= cache.Keys
    ensures (stone, blink) in cache
    decreases maxDepth - blink
  {
    var key := (stone, blink);
    if key in cache0 {
      return cache0[key], cache0;
    }
    cache := cache0;
    if blink == maxDepth {
      r := 1;
    } else if stone == 0 {
      r, cache := DoSolve(1, blink + 1, maxDepth, cache);
    } else {
      var ds := Digits(stone);
      if |ds| % 2 == 0 {
        var h := |ds| / 2;
        var first, second;
        first, cache := DoSolve(Value(ds[..h]), blink + 1, maxDepth, cache);
        second, cache := DoSolve(Value(ds[h..]), blink + 1, maxDepth, cache);
        r := first + second;
      } else {
        r, cache := DoSolve(stone * 2024, blink + 1, maxDepth, cache);
      }
    }
    CacheAdd(cache, stone, blink, maxDepth, r);
    cache := cache[key := r];
  }

  /** Storing an exact count keeps the cache exact. */
  lemma CacheAdd(cache: map<(nat, nat), nat>, stone: nat, blink: nat, maxDepth: nat, r: nat)
    requires CacheOk(cache, maxDepth) && blink <= maxDepth && r == Count(stone, blink, maxDepth)
    ensures CacheOk(cache[(stone, blink) := r], maxDepth)
  {
  }

  /** `solve`: the stones of the row counted one by one with a shared cache;
      the total is the length of the row after `amount` blinks. */
  method Solve(stones: seq<nat>, amount: nat) returns (total: nat)
    ensures total == RowCount(stones, amount)
    ensures total == |Blinks(stones, amount)|
  {
    var cache: map<(nat, nat), nat> := map[];
    total := 0;
    var i := 0;
    while i < |stones|
      invariant 0 <= i <= |stones|
      invariant CacheOk(cache, amount)
      invariant total + RowCount(stones[i..], amount) == RowCount(stones, amount)
    {
      var c;
      c, cache := DoSolve(stones[i], 0, amount, cache);
      assert stones[i..] == [stones[i]] + stones[i + 1..];
      RowCountAppend([stones[i]], stones[i + 1..], amount);
      total := total + c;
      i := i + 1;
    }
    RowCountIsLength(stones, amount);
  }
}
