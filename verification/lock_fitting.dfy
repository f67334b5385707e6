/** Day 25: locks and keys given as schematics of '#' and '.' rows. A lock
    has a full first row, a key a full last row; each column becomes a pin
    height, and a lock and a key fit when no column overlaps. */
module LockFitting {
  import opened Wrappers

  type Schematic = seq<seq<char>>

  /** Row `y` has a column `x` holding `c` (`get(y).get(x) == Some(&c)`). */
  predicate Holds(s: Schematic, y: nat, x: nat, c: char)
    requires y < |s|
  {
    x < |s[y]| && s[y][x] == c
  }

  predicate AllHash(row: seq<char>)
  {
    forall i :: 0 <= i < |row| ==> row[i] == '#'
  }

  /** A lock: the first row is all '#'. */
  predicate IsLock(s: Schematic)
  {
    |s| > 0 && AllHash(s[0])
  }

  /** A key: the last row is all '#'. */
  predicate IsKey(s: Schematic)
  {
    |s| > 0 && AllHash(s[|s| - 1])
  }

  /** Some row of column `x` holds `c`. */
  predicate ColumnHas(s: Schematic, x: nat, c: char)
  {
    exists y :: 0 <= y < |s| && Holds(s, y, x, c)
  }

  /** `(from..len).find(|y| ...)`: the first row at or after `from` whose
      column `x` holds `c`. */
  function FindInColumn(s: Schematic, x: nat, c: char, from: nat): (r: Option<nat>)
    ensures r.Some? ==> from <= r.value < |s| && Holds(s, r.value, x, c)
    ensures r.Some? ==> forall y :: from <= y < r.value ==> !Holds(s, y, x, c)
    ensures r.None? ==> forall y :: from <= y < |s| ==> !Holds(s, y, x, c)
    decreases |s| - from
  {
    if from >= |s| then None
    else if Holds(s, from, x, c) then Some(from)
    else FindInColumn(s, x, c, from + 1)
  }

  /** The pin heights of a lock, one per column of the first row: the first
      row holding '.' in that column, minus one. `None` where a column has
      no '.', at which the Rust code panics on `unwrap`. */
  function LockHeights(s: Schematic): (r: Option<seq<nat>>)
    requires IsLock(s)
    ensures r.Some? ==> |r.value| == |s[0]|
    ensures r.Some? <==> forall x :: 0 <= x < |s[0]| ==> ColumnHas(s, x, '.')
    ensures r.Some? ==> forall x :: 0 <= x < |s[0]| ==>
              var h := r.value[x];
              h + 1 < |s| && Holds(s, h + 1, x, '.') && forall y :: 0 <= y <= h ==> !Holds(s, y, x, '.')
  {
    LockColumns(s, |s[0]|)
  }

  function LockColumns(s: Schematic, n: nat): (r: Option<seq<nat>>)
    requires IsLock(s) && n <= |s[0]|
    ensures r.Some? ==> |r.value| == n
    ensures r.Some? <==> forall x :: 0 <= x < n ==> ColumnHas(s, x, '.')
    ensures r.Some? ==> forall x :: 0 <= x < n ==>
              var h := r.value[x];
              h + 1 < |s| && Holds(s, h + 1, x, '.') && forall y :: 0 <= y <= h ==> !Holds(s, y, x, '.')
  {
    if n == 0 then Some([])
    else
      var prefix := LockColumns(s, n - 1);
      var found := FindInColumn(s, n - 1, '.', 0);
      if prefix.None? then None
      else if found.None? then
        assert !ColumnHas(s, n - 1, '.');
        None
      else
        assert !Holds(s, 0, n - 1, '.');
        Some(prefix.value + [found.value - 1])
  }

  /** The pin heights of a key, one per column of the first row: the number
      of rows below the first '#' in that column. `None` where a column has
      no '#', at which the Rust code panics on `unwrap`. */
  function KeyHeights(s: Schematic): (r: Option<seq<nat>>)
    requires IsKey(s)
    ensures r.Some? ==> |r.value| == |s[0]|
    ensures r.Some? <==> forall x :: 0 <= x < |s[0]| ==> ColumnHas(s, x, '#')
    ensures r.Some? ==> forall x :: 0 <= x < |s[0]| ==>
              var h := r.value[x];
              h < |s| && Holds(s, |s| - 1 - h, x, '#') && forall y :: 0 <= y < |s| - 1 - h ==> !Holds(s, y, x, '#')
  {
    KeyColumns(s, |s[0]|)
  }

  function KeyColumns(s: Schematic, n: nat): (r: Option<seq<nat>>)
    requires IsKey(s) && n <= |s[0]|
    ensures r.Some? ==> |r.value| == n
    ensures r.Some? <==> forall x :: 0 <= x < n ==> ColumnHas(s, x, '#')
    ensures r.Some? ==> forall x :: 0 <= x < n ==>
              var h := r.value[x];
              h < |s| && Holds(s, |s| - 1 - h, x, '#') && forall y :: 0 <= y < |s| - 1 - h ==> !Holds(s, y, x, '#')
  {
    if n == 0 then Some([])
    else
      var prefix := KeyColumns(s, n - 1);
      var found := FindInColumn(s, n - 1, '#', 0);
      if prefix.None? then None
      else if found.None? then
        assert !ColumnHas(s, n - 1, '#');
        None
      else Some(prefix.value + [|s| - 1 - found.value])
  }

  /** `Problem::locks`: the heights of every lock, in input order. `None`
      where the Rust code panics: on an empty schematic (`get(0).unwrap()`,
      which a trailing or doubled blank line produces) or on a lock column
      without '.'. */
  function Locks(input: seq<Schematic>): (r: Option<seq<seq<nat>>>)
    ensures r.Some? ==> |r.value| <= |input|
    ensures r.Some? <==> forall i :: 0 <= i < |input| ==>
              |input[i]| > 0 && (IsLock(input[i]) ==> LockHeights(input[i]).Some?)
  {
    if |input| == 0 then Some([])
    else
      var rest := Locks(input[1..]);
      if rest.None? || |input[0]| == 0 then None
      else if !IsLock(input[0]) then rest
      else
        var h := LockHeights(input[0]);
        if h.None? then None else Some([h.value] + rest.value)
  }

  /** `Problem::keys`: the heights of every key, in input order. `None`
      where the Rust code panics: on an empty schematic (`last().unwrap()`)
      or on a key column without '#'. */
  function Keys(input: seq<Schematic>): (r: Option<seq<seq<nat>>>)
    ensures r.Some? ==> |r.value| <= |input|
    ensures r.Some? <==> forall i :: 0 <= i < |input| ==>
              |input[i]| > 0 && (IsKey(input[i]) ==> KeyHeights(input[i]).Some?)
  {
    if |input| == 0 then Some([])
    else
      var rest := Keys(input[1..]);
      if rest.None? || |input[0]| == 0 then None
      else if !IsKey(input[0]) then rest
      else
        var h := KeyHeights(input[0]);
        if h.None? then None else Some([h.value] + rest.value)
  }

  /** A lock and a key fit when the lock has a column for every column of
      the key and no column overlaps: `lock[i] + key[i] < 6`. */
  predicate Fits(lock: seq<nat>, key: seq<nat>)
  {
    |key| <= |lock| && forall i :: 0 <= i < |key| ==> lock[i] + key[i] < 6
  }

  /** `(0..key.len()).all(|i| lock.get(i).unwrap() + key.get(i).unwrap() < 6)`
      from column `i` on: the scan stops at the first overlapping column, and
      is `None` where it reaches a column the lock lacks (the panic of
      `lock.get(i).unwrap()`). */
  function FitFrom(lock: seq<nat>, key: seq<nat>, i: nat): (r: Option<bool>)
    requires i <= |key|
    ensures r == None <==> i < |key| && |key| > |lock| && forall j :: i <= j < |lock| ==> lock[j] + key[j] < 6
    ensures r == Some(true) <==> (i == |key| || |key| <= |lock|) && forall j :: i <= j < |key| ==> lock[j] + key[j] < 6
    decreases |key| - i
  {
    if i == |key| then Some(true)
    else if i >= |lock| then None
    else if lock[i] + key[i] < 6 then FitFrom(lock, key, i + 1)
    else Some(false)
  }

  /** The test of one pair: `Some(true)` exactly when they fit, `None`
      exactly when the key is wider and every column the lock has fits. */
  function FitTest(lock: seq<nat>, key: seq<nat>): (r: Option<bool>)
    ensures r == Some(true) <==> Fits(lock, key)
    ensures r == None <==> |key| > |lock| && forall j :: 0 <= j < |lock| ==> lock[j] + key[j] < 6
  {
    FitFrom(lock, key, 0)
  }

  /** A wider key is harmless when an earlier column already overlaps: the
      scan stops before the missing lock column. */
  lemma OverlapBeforeMissingColumn()
    ensures FitTest([5], [1, 0]) == Some(false)
  {
    assert FitFrom([5], [1, 0], 0) == Some(false);
  }

  /** Every pair of a lock and a key can be tested without a panic. */
  predicate Compatible(locks: seq<seq<nat>>, keys: seq<seq<nat>>)
  {
    forall i, j :: 0 <= i < |locks| && 0 <= j < |keys| ==> FitTest(locks[i], keys[j]).Some?
  }

  /** The number of keys, among the first `n`, that fit `lock`. */
  function KeysFitting(lock: seq<nat>, keys: seq<seq<nat>>, n: nat): nat
    requires n <= |keys|
  {
    if n == 0 then 0
    else KeysFitting(lock, keys, n - 1) + (if Fits(lock, keys[n - 1]) then 1 else 0)
  }

  /** The fitting pairs `(lock index, key index)` with a lock among the
      first `n`. */
  ghost function FittingPairs(locks: seq<seq<nat>>, keys: seq<seq<nat>>, n: nat): set<(nat, nat)>
    requires n <= |locks|
  {
    set i: nat, j: nat | i < n && j < |keys| && FitsAt(locks, keys, i, j) :: (i, j)
  }

  /** Lock `i` and key `j` fit. */
  predicate FitsAt(locks: seq<seq<nat>>, keys: seq<seq<nat>>, i: nat, j: nat)
    requires i < |locks| && j < |keys|
  {
    Fits(locks[i], keys[j])
  }

  /** The fitting pairs for one lock with a key among the first `m`. */
  ghost function RowPairs(locks: seq<seq<nat>>, keys: seq<seq<nat>>, i: nat, m: nat): set<(nat, nat)>
    requires i < |locks| && m <= |keys|
  {
    set j: nat | j < m && FitsAt(locks, keys, i, j) :: (i, j)
  }

  lemma {:induction false} RowPairsCount(locks: seq<seq<nat>>, keys: seq<seq<nat>>, i: nat, m: nat)
    requires i < |locks| && m <= |keys|
    ensures |RowPairs(locks, keys, i, m)| == KeysFitting(locks[i], keys, m)
  {
    if m == 0 {
      assert RowPairs(locks, keys, i, m) == {};
    } else {
      RowPairsCount(locks, keys, i, m - 1);
      var prev := RowPairs(locks, keys, i, m - 1);
      if FitsAt(locks, keys, i, m - 1) {
        assert RowPairs(locks, keys, i, m) == prev + {(i, m - 1)};
        assert (i, m - 1) !in prev;
      } else {
        assert RowPairs(locks, keys, i, m) == prev;
      }
    }
  }

  lemma {:induction false} FittingPairsCount(locks: seq<seq<nat>>, keys: seq<seq<nat>>, n: nat, total: nat)
    requires 0 < n <= |locks|
    requires total == |FittingPairs(locks, keys, n - 1)| + KeysFitting(locks[n - 1], keys, |keys|)
    ensures total == |FittingPairs(locks, keys, n)|
  {
    var prev := FittingPairs(locks, keys, n - 1);
    var row := RowPairs(locks, keys, n - 1, |keys|);
    RowPairsCount(locks, keys, n - 1, |keys|);
    FittingPairsSplit(locks, keys, n);
    RowsDisjoint(locks, keys, n);
    DisjointUnionSize(prev, row);
  }

  lemma DisjointUnionSize<T>(a: set<T>, b: set<T>)
    requires a !! b
    ensures |a + b| == |a| + |b|
  {
  }

  lemma RowsDisjoint(locks: seq<seq<nat>>, keys: seq<seq<nat>>, n: nat)
    requires 0 < n <= |locks|
    ensures FittingPairs(locks, keys, n - 1) !! RowPairs(locks, keys, n - 1, |keys|)
  {
    forall p | p in RowPairs(locks, keys, n - 1, |keys|) ensures p.0 == n - 1 {
    }
    forall p | p in FittingPairs(locks, keys, n - 1) ensures p.0 < n - 1 {
    }
  }

  lemma FittingPairsSplit(locks: seq<seq<nat>>, keys: seq<seq<nat>>, n: nat)
    requires 0 < n <= |locks|
    ensures FittingPairs(locks, keys, n) == FittingPairs(locks, keys, n - 1) + RowPairs(locks, keys, n - 1, |keys|)
  {
  }

  /** The fit count in `solve`: for each lock, the keys that fit it, summed.
      It is the number of fitting (lock, key) pairs, and `None` exactly when
      some pair's test panics. */
  method FitCount(locks: seq<seq<nat>>, keys: seq<seq<nat>>) returns (r: Option<nat>)
    ensures r.None? <==> !Compatible(locks, keys)
    ensures r.Some? ==> r.value == |FittingPairs(locks, keys, |locks|)|
  {
    var count := 0;
    var i := 0;
    assert FittingPairs(locks, keys, 0) == {};
    while i < |locks|
      invariant i <= |locks|
      invariant count == |FittingPairs(locks, keys, i)|
      invariant forall i', j :: 0 <= i' < i && 0 <= j < |keys| ==> FitTest(locks[i'], keys[j]).Some?
    {
      var row := 0;
      var j := 0;
      while j < |keys|
        invariant j <= |keys|
        invariant row == KeysFitting(locks[i], keys, j)
        invariant forall j' :: 0 <= j' < j ==> FitTest(locks[i], keys[j']).Some?
      {
        var fit := FitTest(locks[i], keys[j]);
        if fit.None? {
          return None;
        }
        if fit.value {
          row := row + 1;
        }
        j := j + 1;
      }
      FittingPairsCount(locks, keys, i + 1, count + row);
      count := count + row;
      i := i + 1;
    }
    r := Some(count);
  }

  /** `solve`: the number of fitting pairs of the parsed locks and keys;
      `None` where parsing or a pair's test panics. */
  method Solve(input: seq<Schematic>) returns (r: Option<nat>)
    ensures r.Some? ==> Locks(input).Some? && Keys(input).Some?
    ensures r.Some? ==> var locks, keys := Locks(input).value, Keys(input).value;
              Compatible(locks, keys) && r.value == |FittingPairs(locks, keys, |locks|)|
    ensures r.None? ==>
              Locks(input).None? || Keys(input).None? || !Compatible(Locks(input).value, Keys(input).value)
  {
    var locks := Locks(input);
    var keys := Keys(input);
    if locks.None? || keys.None? {
      return None;
    }
    r := FitCount(locks.value, keys.value);
  }
}
