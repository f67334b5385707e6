/** Day 1: the total distance and the similarity score of two location-id
    lists. */
module ListDistance {
  import opened Wrappers
  import opened Geometry
  import opened Sorting

  /** Σ |a[i] - b[i]| over the first `n` positions, summed left to right as
      the fold in `solve1` does. */
  function PairwiseDistance(a: seq<int>, b: seq<int>, n: nat): nat
    requires n <= |a| && n <= |b|
  {
    if n == 0 then 0 else PairwiseDistance(a, b, n - 1) + AbsDiff(a[n - 1], b[n - 1])
  }

  /** `solve1`: sort both lists and sum the pairwise distances over the
      length of the first. `None` stands for the index panic when the second
      list is shorter. */
  function TotalDistance(first: seq<nat>, second: seq<nat>): (r: Option<nat>)
    ensures r.None? <==> |second| < |first|
  {
    if |second| < |first| then None
    else Some(PairwiseDistance(Sort(first), Sort(second), |first|))
  }

  lemma {:induction false} PairwiseSymmetric(a: seq<int>, b: seq<int>, n: nat)
    requires n <= |a| && n <= |b|
    ensures PairwiseDistance(a, b, n) == PairwiseDistance(b, a, n)
  {
    if n > 0 {
      PairwiseSymmetric(a, b, n - 1);
    }
  }

  /** The distance is zero exactly when the first `n` entries agree. */
  lemma {:induction false} PairwiseZero(a: seq<int>, b: seq<int>, n: nat)
    requires n <= |a| && n <= |b|
    ensures PairwiseDistance(a, b, n) == 0 <==> a[..n] == b[..n]
  {
    if n > 0 {
      PairwiseZero(a, b, n - 1);
      assert a[..n] == a[..n - 1] + [a[n - 1]] && b[..n] == b[..n - 1] + [b[n - 1]];
      if a[..n] == b[..n] {
        assert a[..n - 1] == a[..n][..n - 1] && b[..n - 1] == b[..n][..n - 1];
        assert a[n - 1] == a[..n][n - 1];
        assert b[n - 1] == b[..n][n - 1];
      }
    }
  }

  /** Permuting either list does not change the total distance. */
  lemma DistancePermutationInvariant(first: seq<nat>, first': seq<nat>, second: seq<nat>, second': seq<nat>)
    requires multiset(first) == multiset(first') && multiset(second) == multiset(second')
    ensures TotalDistance(first, second) == TotalDistance(first', second')
  {
    SortPermutation(first, first');
    SortPermutation(second, second');
    assert |first| == |multiset(first)| == |first'|;
    assert |second| == |multiset(second)| == |second'|;
  }

  /** For lists of equal length, swapping them does not change the total. */
  lemma DistanceSwap(first: seq<nat>, second: seq<nat>)
    requires |first| == |second|
    ensures TotalDistance(first, second) == TotalDistance(second, first)
  {
    PairwiseSymmetric(Sort(first), Sort(second), |first|);
  }

  /** Two lists of equal length are at distance 0 exactly when they are
      permutations of each other. */
  lemma DistanceZeroIffPermutation(first: seq<nat>, second: seq<nat>)
    requires |first| == |second|
    ensures TotalDistance(first, second) == Some(0) <==> multiset(first) == multiset(second)
  {
    var a, b := Sort(first), Sort(second);
    PairwiseZero(a, b, |first|);
    assert a[..|first|] == a && b[..|first|] == b;
    if multiset(first) == multiset(second) {
      SortPermutation(first, second);
    }
  }

  /** `frequency_map`: how often each value occurs in `s`. */
  function Frequencies(s: seq<nat>): (r: map<nat, nat>)
    ensures forall v :: v in r <==> v in s
    ensures forall v :: v in r ==> r[v] == multiset(s)[v]
  {
    if |s| == 0 then map[]
    else
      var m := Frequencies(s[..|s| - 1]);
      var v := s[|s| - 1];
      assert s == s[..|s| - 1] + [v];
      m[v := (if v in m then m[v] else 0) + 1]
  }

  /** Σ v · freq[v] over `first`, reading 0 for a value missing from the map
      (`unwrap_or(&0)`). */
  function WeightedSum(first: seq<nat>, freq: map<nat, nat>): nat
  {
    if |first| == 0 then 0
    else first[0] * (if first[0] in freq then freq[first[0]] else 0) + WeightedSum(first[1..], freq)
  }

  /** `solve2`: the similarity score. */
  function Similarity(first: seq<nat>, second: seq<nat>): nat
  {
    WeightedSum(first, Frequencies(second))
  }

  /** The similarity score adds, for each entry `v` of the first list, `v`
      times the number of occurrences of `v` in the second list; an absent
      value adds 0. */
  function SimilaritySpec(first: seq<nat>, second: seq<nat>): nat
  {
    if |first| == 0 then 0
    else first[0] * multiset(second)[first[0]] + SimilaritySpec(first[1..], second)
  }

  lemma {:induction false} SimilarityMatchesSpec(first: seq<nat>, second: seq<nat>)
    ensures Similarity(first, second) == SimilaritySpec(first, second)
  {
    if |first| > 0 {
      SimilarityMatchesSpec(first[1..], second);
      var freq := Frequencies(second);
      assert (if first[0] in freq then freq[first[0]] else 0) == multiset(second)[first[0]];
    }
  }

  /** The score depends on the second list only through its multiset, and
      it is 0 when no value of the first list occurs in the second. */
  lemma {:induction false} SimilarityOfDisjoint(first: seq<nat>, second: seq<nat>)
    requires forall i :: 0 <= i < |first| ==> first[i] !in second
    ensures Similarity(first, second) == 0
  {
    SimilarityMatchesSpec(first, second);
    SpecOfDisjoint(first, second);
  }

  lemma {:induction false} SpecOfDisjoint(first: seq<nat>, second: seq<nat>)
    requires forall i :: 0 <= i < |first| ==> first[i] !in second
    ensures SimilaritySpec(first, second) == 0
  {
    if |first| > 0 {
      assert first[0] !in second;
      assert forall i :: 0 <= i < |first[1..]| ==> first[1..][i] == first[i + 1];
      SpecOfDisjoint(first[1..], second);
    }
  }

  lemma {:induction false} SimilarityPermutationInvariant(first: seq<nat>, second: seq<nat>, second': seq<nat>)
    requires multiset(second) == multiset(second')
    ensures Similarity(first, second) == Similarity(first, second')
  {
    SimilarityMatchesSpec(first, second);
    SimilarityMatchesSpec(first, second');
    SpecPermutation(first, second, second');
  }

  lemma {:induction false} SpecPermutation(first: seq<nat>, second: seq<nat>, second': seq<nat>)
    requires multiset(second) == multiset(second')
    ensures SimilaritySpec(first, second) == SimilaritySpec(first, second')
  {
    if |first| > 0 {
      SpecPermutation(first[1..], second, second');
    }
  }
}
