/** Day 23: a network of computers given as `a-b` connection pairs. The
    program builds the adjacency map and collects, as `a-b-c` strings with
    the three names sorted, every triangle through a computer whose name
    starts with 't'. */
module LanParty {
  import Sorting

  type Name = string
  type Adjacency = map<Name, set<Name>>

  // ---------------------------------------------------------------------
  // Rust's `Ord` on `String`: lexicographic order of the characters.

  /** `s <= t` lexicographically. */
  predicate LexLe(s: Name, t: Name)
    decreases |s|
  {
    if |s| == 0 then true
    else if |t| == 0 then false
    else if s[0] != t[0] then s[0] < t[0]
    else LexLe(s[1..], t[1..])
  }

  lemma {:induction false} LexTotal(s: Name, t: Name)
    ensures LexLe(s, t) || LexLe(t, s)
    decreases |s|
  {
    if |s| > 0 && |t| > 0 && s[0] == t[0] {
      LexTotal(s[1..], t[1..]);
    }
  }

  lemma {:induction false} LexAntisymmetric(s: Name, t: Name)
    requires LexLe(s, t) && LexLe(t, s)
    ensures s == t
    decreases |s|
  {
    if |s| > 0 {
      LexAntisymmetric(s[1..], t[1..]);
      assert s == [s[0]] + s[1..] && t == [t[0]] + t[1..];
    }
  }

  lemma {:induction false} LexTransitive(s: Name, t: Name, u: Name)
    requires LexLe(s, t) && LexLe(t, u)
    ensures LexLe(s, u)
    decreases |s|
  {
    if |s| > 0 && s[0] == t[0] && t[0] == u[0] {
      LexTransitive(s[1..], t[1..], u[1..]);
    }
  }

  lemma {:induction false} LexReflexive(s: Name)
    ensures LexLe(s, s)
    decreases |s|
  {
    if |s| > 0 {
      LexReflexive(s[1..]);
    }
  }

  /** Each name is at most its successor. */
  predicate SortedNames(s: seq<Name>)
  {
    forall i :: 0 <= i < |s| - 1 ==> LexLe(s[i], s[i + 1])
  }

  /** `x` placed before the first name of `s` that is not smaller. */
  function InsertName(x: Name, s: seq<Name>): (r: seq<Name>)
    requires SortedNames(s)
    ensures SortedNames(r) && multiset(r) == multiset(s) + multiset{x} && |r| == |s| + 1
    ensures r[0] == x || (|s| > 0 && r[0] == s[0])
  {
    if |s| == 0 || LexLe(x, s[0]) then [x] + s
    else
      LexTotal(x, s[0]);
      var rest := InsertName(x, s[1..]);
      assert s == [s[0]] + s[1..];
      [s[0]] + rest
  }

  /** `Vec::sort` on names: an ascending permutation. */
  function SortNames(s: seq<Name>): (r: seq<Name>)
    ensures SortedNames(r) && multiset(r) == multiset(s) && |r| == |s|
  {
    if |s| == 0 then []
    else
      assert s == s[..|s| - 1] + [s[|s| - 1]];
      InsertName(s[|s| - 1], SortNames(s[..|s| - 1]))
  }

  /** The head of an ascending list is at most any of its names. */
  lemma {:induction false} HeadIsLeast(s: seq<Name>, v: Name)
    requires SortedNames(s) && v in s
    ensures LexLe(s[0], v)
    decreases |s|
  {
    if s[0] == v {
      LexReflexive(v);
    } else {
      assert v in s[1..];
      assert SortedNames(s[1..]);
      HeadIsLeast(s[1..], v);
      LexTransitive(s[0], s[1], v);
    }
  }

  /** Two ascending lists of the same names are equal. */
  lemma {:induction false} SortedUnique(a: seq<Name>, b: seq<Name>)
    requires SortedNames(a) && SortedNames(b) && multiset(a) == multiset(b)
    ensures a == b
    decreases |a|
  {
    assert |a| == |b| by {
      assert |multiset(a)| == |a| && |multiset(b)| == |b|;
    }
    if |a| > 0 {
      assert a[0] in multiset(b) && b[0] in multiset(a);
      HeadIsLeast(a, b[0]);
      HeadIsLeast(b, a[0]);
      LexAntisymmetric(a[0], b[0]);
      assert a == [a[0]] + a[1..] && b == [b[0]] + b[1..];
      Sorting.TailMultiset(a, b);
      assert SortedNames(a[1..]) && SortedNames(b[1..]);
      SortedUnique(a[1..], b[1..]);
    }
  }

  /** Sorting depends only on which names are sorted. */
  lemma SortPermutation(a: seq<Name>, b: seq<Name>)
    requires multiset(a) == multiset(b)
    ensures SortNames(a) == SortNames(b)
  {
    SortedUnique(SortNames(a), SortNames(b));
  }

  // ---------------------------------------------------------------------
  // Triangle names.

  /** The name holds no '-' (names come from splitting lines at '-'). */
  predicate NoDash(n: Name)
  {
    |n| == 0 || (n[0] != '-' && NoDash(n[1..]))
  }

  /** `join("-")`. */
  function Join(s: seq<Name>): Name
  {
    if |s| == 0 then ""
    else if |s| == 1 then s[0]
    else s[0] + "-" + Join(s[1..])
  }

  /** `vec![a, b, c]` sorted and joined. */
  function TriangleName(a: Name, b: Name, c: Name): Name
  {
    Join(SortNames([a, b, c]))
  }

  /** Splitting at the first dash undoes joining a dash-free name. */
  lemma {:induction false} JoinHead(a: Name, r: Name, x: Name, q: Name)
    requires NoDash(a) && NoDash(x) && a + "-" + r == x + "-" + q
    ensures a == x && r == q
    decreases |a|
  {
    var s, s' := a + "-" + r, x + "-" + q;
    if |a| == 0 || |x| == 0 {
      assert s[0] == s'[0];
      assert |a| == 0 && |x| == 0;
      assert r == s[1..] && q == s'[1..];
    } else {
      assert s[0] == s'[0];
      assert a[1..] + "-" + r == s[1..] == s'[1..] == x[1..] + "-" + q;
      JoinHead(a[1..], r, x[1..], q);
      assert a == [a[0]] + a[1..] && x == [x[0]] + x[1..];
    }
  }

  /** Joining dash-free names of equal count is injective. */
  lemma {:induction false} JoinInjective(s: seq<Name>, t: seq<Name>)
    requires |s| == |t|
    requires forall i :: 0 <= i < |s| ==> NoDash(s[i])
    requires forall i :: 0 <= i < |t| ==> NoDash(t[i])
    requires Join(s) == Join(t)
    ensures s == t
    decreases |s|
  {
    if |s| == 1 {
      assert s == [s[0]] && t == [t[0]];
    } else if |s| > 1 {
      assert s[0] + "-" + Join(s[1..]) == t[0] + "-" + Join(t[1..]);
      assert NoDash(s[0]) && NoDash(t[0]);
      JoinHead(s[0], Join(s[1..]), t[0], Join(t[1..]));
      JoinInjective(s[1..], t[1..]);
      assert s == [s[0]] + s[1..] && t == [t[0]] + t[1..];
    }
  }

  /** The name does not depend on the order of the three computers. */
  lemma TriangleNameSymmetric(a: Name, b: Name, c: Name)
    ensures TriangleName(a, b, c) == TriangleName(b, a, c) == TriangleName(c, a, b)
  {
    Rotations(a, b, c);
    SortPermutation([a, b, c], [b, a, c]);
    SortPermutation([a, b, c], [c, a, b]);
  }

  lemma Rotations<T>(a: T, b: T, c: T)
    ensures multiset([a, b, c]) == multiset([b, a, c])
    ensures multiset([a, b, c]) == multiset([c, a, b])
  {
    SwapFirst(a, b, c);
    SwapFirst(a, c, b);
    SwapLast(c, a, b);
  }

  lemma SwapFirst<T>(a: T, b: T, c: T)
    ensures multiset([a, b, c]) == multiset([b, a, c])
  {
  }

  lemma SwapLast<T>(a: T, b: T, c: T)
    ensures multiset([a, b, c]) == multiset([a, c, b])
  {
  }

  lemma SameComputers(a: Name, b: Name, c: Name, x: Name, y: Name, z: Name)
    requires multiset{a, b, c} == multiset{x, y, z}
    ensures TriangleName(a, b, c) == TriangleName(x, y, z)
  {
    assert multiset([a, b, c]) == multiset{a, b, c};
    assert multiset([x, y, z]) == multiset{x, y, z};
    SortPermutation([a, b, c], [x, y, z]);
  }

  lemma SortedNoDash(a: Name, b: Name, c: Name)
    requires NoDash(a) && NoDash(b) && NoDash(c)
    ensures forall i :: 0 <= i < |SortNames([a, b, c])| ==> NoDash(SortNames([a, b, c])[i])
  {
    var s := SortNames([a, b, c]);
    forall i | 0 <= i < |s| ensures NoDash(s[i]) {
      assert s[i] in multiset(s);
      assert s[i] in multiset([a, b, c]);
      assert s[i] in [a, b, c];
    }
  }

  /** For dash-free names, two triangle names are equal exactly when the
      triangles have the same computers. */
  lemma TriangleNameInjective(a: Name, b: Name, c: Name, x: Name, y: Name, z: Name)
    requires NoDash(a) && NoDash(b) && NoDash(c) && NoDash(x) && NoDash(y) && NoDash(z)
    ensures TriangleName(a, b, c) == TriangleName(x, y, z) <==> multiset{a, b, c} == multiset{x, y, z}
  {
    var s, t := SortNames([a, b, c]), SortNames([x, y, z]);
    if Join(s) == Join(t) {
      SortedNoDash(a, b, c);
      SortedNoDash(x, y, z);
      JoinInjective(s, t);
      assert multiset([a, b, c]) == multiset([x, y, z]);
      assert multiset([a, b, c]) == multiset{a, b, c} && multiset([x, y, z]) == multiset{x, y, z};
    }
    if multiset{a, b, c} == multiset{x, y, z} {
      SameComputers(a, b, c, x, y, z);
    }
  }

  // ---------------------------------------------------------------------
  // The adjacency map.

  /** Connection `i` joins `a` and `b`, in either order. */
  predicate LinkedAt(conns: seq<(Name, Name)>, i: int, a: Name, b: Name)
    requires 0 <= i < |conns|
  {
    conns[i] == (a, b) || conns[i] == (b, a)
  }

  ghost predicate Linked(conns: seq<(Name, Name)>, a: Name, b: Name)
  {
    exists i :: 0 <= i < |conns| && LinkedAt(conns, i, a, b)
  }

  ghost predicate Mentioned(conns: seq<(Name, Name)>, a: Name)
  {
    exists i :: 0 <= i < |conns| && (conns[i].0 == a || conns[i].1 == a)
  }

  /** Every entry of the map is mirrored: `b` is a neighbour of `a` exactly
      when `a` is a neighbour of `b`. */
  ghost predicate Symmetric(adj: Adjacency)
  {
    forall a, b :: a in adj && b in adj[a] ==> b in adj && a in adj[b]
  }

  function Neighbours(adj: Adjacency, a: Name): set<Name>
  {
    if a in adj then adj[a] else {}
  }

  /** The two `entry(..).or_insert(..).insert(..)` calls for one pair. */
  function Connect(adj: Adjacency, a: Name, b: Name): (r: Adjacency)
    ensures r.Keys == adj.Keys + {a, b}
    ensures forall u, v :: u in r && v in r[u] <==> (u in adj && v in adj[u]) || (u, v) == (a, b) || (u, v) == (b, a)
  {
    var adj1 := adj[a := Neighbours(adj, a) + {b}];
    adj1[b := Neighbours(adj1, b) + {a}]
  }

  lemma LinkedAppend(conns: seq<(Name, Name)>, a: Name, b: Name, u: Name, v: Name)
    ensures Linked(conns + [(a, b)], u, v) <==> Linked(conns, u, v) || (u, v) == (a, b) || (u, v) == (b, a)
    ensures Mentioned(conns + [(a, b)], u) <==> Mentioned(conns, u) || u == a || u == b
  {
    var all := conns + [(a, b)];
    if Linked(all, u, v) {
      var i :| 0 <= i < |all| && LinkedAt(all, i, u, v);
      if i < |conns| {
        assert LinkedAt(conns, i, u, v);
      }
    }
    if Linked(conns, u, v) {
      var i :| 0 <= i < |conns| && LinkedAt(conns, i, u, v);
      assert LinkedAt(all, i, u, v);
    }
    if (u, v) == (a, b) || (u, v) == (b, a) {
      assert LinkedAt(all, |conns|, u, v);
    }
    if Mentioned(all, u) {
      var i :| 0 <= i < |all| && (all[i].0 == u || all[i].1 == u);
      if i < |conns| {
        assert conns[i] == all[i];
      }
    }
    if Mentioned(conns, u) {
      var i :| 0 <= i < |conns| && (conns[i].0 == u || conns[i].1 == u);
      assert all[i] == conns[i];
    }
    if u == a || u == b {
      assert all[|conns|] == (a, b);
    }
  }

  /** `nodes_to_connected`: every computer named in a connection is a key,
      and its set holds exactly the computers it is connected to, in
      either direction of the pair. */
  function NodesToConnected(conns: seq<(Name, Name)>): (r: Adjacency)
    ensures forall u :: u in r <==> Mentioned(conns, u)
    ensures forall u, v :: u in r && v in r[u] <==> Linked(conns, u, v)
  {
    if |conns| == 0 then map[]
    else
      var prefix := conns[..|conns| - 1];
      var last := conns[|conns| - 1];
      var prev := NodesToConnected(prefix);
      var r := Connect(prev, last.0, last.1);
      assert conns == prefix + [(last.0, last.1)];
      forall u ensures u in r <==> Mentioned(conns, u) {
        LinkedAppend(prefix, last.0, last.1, u, u);
      }
      forall u, v ensures u in r && v in r[u] <==> Linked(conns, u, v) {
        LinkedAppend(prefix, last.0, last.1, u, v);
      }
      r
  }

  /** The adjacency map is symmetric. */
  lemma ConnectedSymmetric(conns: seq<(Name, Name)>)
    ensures Symmetric(NodesToConnected(conns))
  {
    var adj := NodesToConnected(conns);
    forall a, b | a in adj && b in adj[a] ensures b in adj && a in adj[b] {
      var i :| 0 <= i < |conns| && LinkedAt(conns, i, a, b);
      assert LinkedAt(conns, i, b, a);
    }
  }

  // ---------------------------------------------------------------------
  // Triangles.

  /** `key`, `c` and `t` are pairwise connected, read as the source does:
      `c` and `t` are neighbours of `key` and `t` is a neighbour of `c`. */
  predicate Triangle(adj: Adjacency, key: Name, c: Name, t: Name)
  {
    key in adj && c in adj && t in adj && c in adj[key] && t in adj[key] && t in adj[c]
  }

  /** `find_cliques_of_size_3`: the names of the triangles through `key`.
      The source unwraps the entry of every candidate, which a symmetric map
      always has; here a candidate without an entry closes no triangle. */
  function CliquesOf(adj: Adjacency, key: Name): (r: set<Name>)
    requires key in adj
    ensures forall c, t :: Triangle(adj, key, c, t) ==> TriangleName(key, c, t) in r
  {
    set c, t | c in adj[key] && t in adj[key] && Triangle(adj, key, c, t) :: TriangleName(key, c, t)
  }

  /** With dash-free names and a symmetric map, the name of a triple through
      `key` is among the cliques of `key` exactly when the three computers
      are pairwise connected. */
  lemma CliquesOfIff(adj: Adjacency, key: Name, c: Name, t: Name)
    requires Symmetric(adj) && key in adj
    requires forall n :: n in adj ==> NoDash(n)
    requires NoDash(c) && NoDash(t)
    ensures TriangleName(key, c, t) in CliquesOf(adj, key) <==> Triangle(adj, key, c, t)
  {
    if TriangleName(key, c, t) in CliquesOf(adj, key) {
      var c', t' := CliqueWitness(adj, key, TriangleName(key, c, t));
      assert key in adj && c' in adj && t' in adj;
      assert NoDash(key) && NoDash(c') && NoDash(t');
      SameName(adj, key, c', t', c, t);
    }
  }

  /** A name among the cliques of `key` names a triangle through `key`. */
  lemma CliqueWitness(adj: Adjacency, key: Name, s: Name) returns (c: Name, t: Name)
    requires key in adj && s in CliquesOf(adj, key)
    ensures Triangle(adj, key, c, t) && s == TriangleName(key, c, t)
  {
    c, t :| c in adj[key] && t in adj[key] && Triangle(adj, key, c, t) && s == TriangleName(key, c, t);
  }

  /** A triangle through `key` with the name of the triple `key`, `c`, `t`
      has the computers `c` and `t`, so they form a triangle too. */
  lemma SameName(adj: Adjacency, key: Name, c': Name, t': Name, c: Name, t: Name)
    requires Symmetric(adj) && Triangle(adj, key, c', t')
    requires NoDash(key) && NoDash(c') && NoDash(t') && NoDash(c) && NoDash(t)
    requires TriangleName(key, c', t') == TriangleName(key, c, t)
    ensures Triangle(adj, key, c, t)
  {
    TriangleNameInjective(key, c', t', key, c, t);
    SamePair(key, c', t', c, t);
    SwapTriangle(adj, key, c', t');
  }

  /** In a symmetric map the last two computers of a triangle swap. */
  lemma SwapTriangle(adj: Adjacency, key: Name, c: Name, t: Name)
    requires Symmetric(adj) && Triangle(adj, key, c, t)
    ensures Triangle(adj, key, t, c)
  {
  }

  /** Two triples sharing their first element share the other two. */
  lemma SamePair<T>(k: T, c': T, t': T, c: T, t: T)
    requires multiset{k, c', t'} == multiset{k, c, t}
    ensures (c' == c && t' == t) || (c' == t && t' == c)
  {
    var m1, m2 := multiset{c', t'}, multiset{c, t};
    assert m1 == m2 by {
      assert multiset{k, c', t'} - multiset{k} == m1;
      assert multiset{k, c, t} - multiset{k} == m2;
    }
    if c' == c {
      assert t' == t by {
        assert m1 - multiset{c} == multiset{t'} && m2 - multiset{c} == multiset{t};
        assert t in multiset{t'};
      }
    } else {
      assert c' == t by {
        assert c' in m2;
      }
      assert t' == c by {
        assert m1 - multiset{t} == multiset{t'} && m2 - multiset{t} == multiset{c};
        assert c in multiset{t'};
      }
    }
  }


  predicate StartsWithT(n: Name)
  {
    |n| > 0 && n[0] == 't'
  }

  /** The union of the cliques of every computer whose name starts with 't',
      as `solve1` folds it. */
  function TCliques(adj: Adjacency): (r: set<Name>)
  {
    set k, s | k in adj && StartsWithT(k) && s in CliquesOf(adj, k) :: s
  }

  /** The collected names are exactly the names of triangles with at least
      one computer starting with 't', whatever its position in the triple. */
  lemma TCliquesComplete(adj: Adjacency, a: Name, b: Name, c: Name)
    requires Symmetric(adj) && Triangle(adj, a, b, c)
    requires StartsWithT(a) || StartsWithT(b) || StartsWithT(c)
    ensures TriangleName(a, b, c) in TCliques(adj)
  {
    TriangleNameSymmetric(a, b, c);
    if StartsWithT(a) {
      assert TriangleName(a, b, c) in CliquesOf(adj, a);
    } else if StartsWithT(b) {
      assert Triangle(adj, b, a, c);
      assert TriangleName(b, a, c) in CliquesOf(adj, b);
    } else {
      assert Triangle(adj, c, a, b);
      assert TriangleName(c, a, b) in CliquesOf(adj, c);
    }
  }

  lemma TCliquesSound(adj: Adjacency, s: Name)
    requires s in TCliques(adj)
    ensures exists a, b, c :: StartsWithT(a) && Triangle(adj, a, b, c) && s == TriangleName(a, b, c)
  {
    var k :| k in adj && StartsWithT(k) && s in CliquesOf(adj, k);
    var c, t :| c in adj[k] && t in adj[k] && Triangle(adj, k, c, t) && s == TriangleName(k, c, t);
  }

  /** `solve1`: the number of distinct triangle names through a computer
      starting with 't'. */
  function Solve1(conns: seq<(Name, Name)>): (r: nat)
    ensures var adj := NodesToConnected(conns);
            Symmetric(adj) && r == |TCliques(adj)|
  {
    ConnectedSymmetric(conns);
    |TCliques(NodesToConnected(conns))|
  }
}
