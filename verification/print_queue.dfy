/** Day 5: page-ordering rules `X|Y` ("X must be printed before Y"), the
    check that an update breaks a rule, and the reordering of an update. */
module PrintQueue {
  import opened Wrappers

  /** `rules[x]` lists every `y` with a rule `x|y`. */
  type Rules = map<nat, seq<nat>>

  /** `reverse_rules[y]` holds every `x` with a rule `x|y`. */
  type ReverseRules = map<nat, set<nat>>

  /** `Problem::new`: invert the rules, visiting the keys in some order and
      each key's list in order. */
  method Reverse(rules: Rules) returns (rev: ReverseRules)
    ensures forall y, x :: y in rev && x in rev[y] <==> x in rules && y in rules[x]
    ensures forall y :: y in rev ==> rev[y] != {}
  {
    rev := map[];
    var todo := rules.Keys;
    while todo != {}
      invariant todo <= rules.Keys
      invariant forall y, x :: y in rev && x in rev[y] <==> x in rules && x !in todo && y in rules[x]
      invariant forall y :: y in rev ==> rev[y] != {}
      decreases |todo|
    {
      var x :| x in todo;
      var values := rules[x];
      var i := 0;
      while i < |values|
        invariant 0 <= i <= |values|
        invariant forall y, x' :: y in rev && x' in rev[y] <==>
                    (x' in rules && x' !in todo && y in rules[x']) || (x' == x && y in values[..i])
        invariant forall y :: y in rev ==> rev[y] != {}
      {
        var y := values[i];
        var old_ := if y in rev then rev[y] else {};
        rev := rev[y := old_ + {x}];
        assert values[..i + 1] == values[..i] + [y];
        i := i + 1;
      }
      assert values[..i] == values;
      todo := todo - {x};
    }
  }

  /** The last position of every page of the update (`order_map`: later
      positions overwrite earlier ones). */
  function LastIndex(order: seq<nat>): (m: map<nat, nat>)
    ensures forall v :: v in m <==> v in order
    ensures forall v :: v in m ==> m[v] < |order| && order[m[v]] == v
    ensures forall v, k :: v in m && m[v] < k < |order| ==> order[k] != v
  {
    if |order| == 0 then map[]
    else
      var prefix := order[..|order| - 1];
      var m := LastIndex(prefix);
      assert order == prefix + [order[|order| - 1]];
      m[order[|order| - 1] := |order| - 1]
  }

  /** `is_order_incorrect`: some page `order[idx]` has a rule `order[idx]|r`
      whose `r` sits (at its last position) before `idx`. A page missing from
      the update reads position `|order|` and never triggers. */
  predicate IsOrderIncorrect(rules: Rules, order: seq<nat>)
  {
    var m := LastIndex(order);
    exists idx, j :: 0 <= idx < |order| && order[idx] in rules && 0 <= j < |rules[order[idx]]|
                     && (if rules[order[idx]][j] in m then m[rules[order[idx]][j]] else |order|) < idx
  }

  /** Every occurrence of `v` in `order` lies before `idx`, and there is one. */
  ghost predicate AllBefore(order: seq<nat>, v: nat, idx: nat)
  {
    v in order && forall k :: 0 <= k < |order| && order[k] == v ==> k < idx
  }

  /** An update is incorrect iff some page has a rule naming a page that
      occurs in the update only before it. */
  lemma IncorrectIff(rules: Rules, order: seq<nat>)
    ensures IsOrderIncorrect(rules, order) <==>
              exists idx, r :: 0 <= idx < |order| && order[idx] in rules && r in rules[order[idx]]
                               && AllBefore(order, r, idx)
  {
    var m := LastIndex(order);
    if IsOrderIncorrect(rules, order) {
      var idx, j :| 0 <= idx < |order| && order[idx] in rules && 0 <= j < |rules[order[idx]]|
                     && (if rules[order[idx]][j] in m then m[rules[order[idx]][j]] else |order|) < idx;
      var r := rules[order[idx]][j];
      assert AllBefore(order, r, idx);
    }
    if exists idx, r :: 0 <= idx < |order| && order[idx] in rules && r in rules[order[idx]]
                        && AllBefore(order, r, idx) {
      var idx, r :| 0 <= idx < |order| && order[idx] in rules && r in rules[order[idx]]
                    && AllBefore(order, r, idx);
      var j :| 0 <= j < |rules[order[idx]]| && rules[order[idx]][j] == r;
      assert r in m;
    }
  }

  predicate Distinct(s: seq<nat>)
  {
    forall i, j :: 0 <= i < j < |s| ==> s[i] != s[j]
  }

  /** For an update without repeated pages: incorrect iff some rule `x|y`
      has `y` printed before `x`. */
  lemma IncorrectIffRuleBroken(rules: Rules, order: seq<nat>)
    requires Distinct(order)
    ensures IsOrderIncorrect(rules, order) <==>
              exists i, j :: 0 <= i < j < |order| && order[j] in rules && order[i] in rules[order[j]]
  {
    IncorrectIff(rules, order);
    if exists i, j :: 0 <= i < j < |order| && order[j] in rules && order[i] in rules[order[j]] {
      var i, j :| 0 <= i < j < |order| && order[j] in rules && order[i] in rules[order[j]];
      assert AllBefore(order, order[i], j);
    }
  }

  /** A page may be printed next when no page it must follow is still to do. */
  predicate Ready(rev: ReverseRules, todo: seq<nat>, item: nat)
  {
    item !in rev || forall dep :: dep in rev[item] ==> dep !in todo
  }

  /** The first ready page of `todo` (the iterator's `find`). */
  function FirstReady(rev: ReverseRules, todo: seq<nat>): (r: Option<nat>)
    ensures r.Some? ==> r.value < |todo| && Ready(rev, todo, todo[r.value])
                        && forall k :: 0 <= k < r.value ==> !Ready(rev, todo, todo[k])
    ensures r.None? ==> forall k :: 0 <= k < |todo| ==> !Ready(rev, todo, todo[k])
  {
    FirstReadyFrom(rev, todo, 0)
  }

  function FirstReadyFrom(rev: ReverseRules, todo: seq<nat>, from: nat): (r: Option<nat>)
    requires from <= |todo|
    ensures r.Some? ==> from <= r.value < |todo| && Ready(rev, todo, todo[r.value])
                        && forall k :: from <= k < r.value ==> !Ready(rev, todo, todo[k])
    ensures r.None? ==> forall k :: from <= k < |todo| ==> !Ready(rev, todo, todo[k])
    decreases |todo| - from
  {
    if from == |todo| then None
    else if Ready(rev, todo, todo[from]) then Some(from)
    else FirstReadyFrom(rev, todo, from + 1)
  }

  /** `retain(|&x| x != v)`. */
  function Without(s: seq<nat>, v: nat): (r: seq<nat>)
    ensures forall x :: x in r <==> x in s && x != v
    ensures |r| <= |s| && (v in s ==> |r| < |s|)
  {
    if |s| == 0 then []
    else (if s[0] == v then [] else [s[0]]) + Without(s[1..], v)
  }

  /** When no page of the to-do list is ready, each waits on another page of
      the update that is not yet printed. */
  lemma Stuck(rev: ReverseRules, order: seq<nat>, todo: seq<nat>, out: seq<nat>)
    requires forall x :: x in todo ==> x in order
    requires forall x :: x in order ==> (x in todo <==> x !in out)
    requires FirstReady(rev, todo).None?
    ensures forall x :: x in order && x !in out ==>
              x in rev && exists d :: d in rev[x] && d in order && d !in out
  {
    forall x | x in order && x !in out
      ensures x in rev && exists d :: d in rev[x] && d in order && d !in out
    {
      var k :| 0 <= k < |todo| && todo[k] == x;
      assert !Ready(rev, todo, todo[k]);
      var d :| d in rev[x] && d in todo;
    }
  }

  /** What `put_in_order` keeps true: the to-do list holds exactly the pages
      of the update not yet printed, nothing is printed twice, and every
      printed page comes after the printed pages it must follow. */
  ghost predicate OrderingInvariant(rev: ReverseRules, order: seq<nat>, todo: seq<nat>, out: seq<nat>)
  {
    && (forall x :: x in todo ==> x in order)
    && (forall x :: x in order ==> (x in todo <==> x !in out))
    && (forall x :: x in out ==> x in order)
    && Distinct(out)
    && (forall i :: 0 <= i < |out| ==>
          out[i] in rev ==> forall d :: d in rev[out[i]] && d in order ==> d in out[..i])
  }

  lemma PrintKeepsInvariant(rev: ReverseRules, order: seq<nat>, todo: seq<nat>, out: seq<nat>, page: nat)
    requires OrderingInvariant(rev, order, todo, out)
    requires page in todo && Ready(rev, todo, page)
    ensures OrderingInvariant(rev, order, Without(todo, page), out + [page])
  {
    var out' := out + [page];
    assert page in order && page !in out;
    assert out'[..|out|] == out;
    forall i | 0 <= i < |out'| && out'[i] in rev
      ensures forall d :: d in rev[out'[i]] && d in order ==> d in out'[..i]
    {
      if i < |out| {
        assert out'[..i] == out[..i];
      } else {
        assert forall d :: d in rev[page] && d in order ==> d in out;
      }
    }
  }

  /** `put_in_order`: repeatedly print the first ready page and drop all its
      copies from the to-do list. The list shrinks every round, so the loop
      ends; it ends early when every remaining page waits on another (a
      cycle in the rules). */
  method PutInOrder(rev: ReverseRules, order: seq<nat>) returns (out: seq<nat>)
    ensures Distinct(out)
    ensures forall x :: x in out ==> x in order
    ensures forall i :: 0 <= i < |out| ==>
              out[i] in rev ==> forall d :: d in rev[out[i]] && d in order ==> d in out[..i]
    ensures forall x :: x in order && x !in out ==>
              x in rev && exists d :: d in rev[x] && d in order && d !in out
  {
    var todo := order;
    out := [];
    while FirstReady(rev, todo).Some?
      invariant OrderingInvariant(rev, order, todo, out)
      decreases |todo|
    {
      var next := FirstReady(rev, todo);
      var page := todo[next.value];
      PrintKeepsInvariant(rev, order, todo, out, page);
      todo := Without(todo, page);
      out := out + [page];
    }
    Stuck(rev, order, todo, out);
  }
}
