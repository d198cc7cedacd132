/** Two location lists are compared in two ways: the distance pairs the
    smallest of one with the smallest of the other, the second smallest with
    the second smallest and so on, and adds up how far apart each pair is;
    the similarity score weighs every value of the first list by how often
    it occurs in the second. */
module ListDistance {
  import opened Wrappers

  predicate Sorted(s: seq<int>)
  {
    forall i, j :: 0 <= i < j < |s| ==> s[i] <= s[j]
  }

  /** A value no larger than the head of a sorted list can go in front. */
  lemma SortedCons(h: int, t: seq<int>)
    requires Sorted(t) && (|t| > 0 ==> h <= t[0])
    ensures Sorted([h] + t)
  {
    forall i, j | 0 <= i < j < |t| + 1
      ensures ([h] + t)[i] <= ([h] + t)[j]
    {
      if i == 0 {
        assert t[0] <= t[j - 1];
      }
    }
  }

  lemma SortedTail(s: seq<int>)
    requires Sorted(s) && |s| > 0
    ensures Sorted(s[1..])
  {
    forall i, j | 0 <= i < j < |s| - 1
      ensures s[1..][i] <= s[1..][j]
    {
      assert s[1..][i] == s[i + 1] && s[1..][j] == s[j + 1];
    }
  }

  /** `x` put into its place in a sorted list. */
  function Insert(x: int, s: seq<int>): (r: seq<int>)
    requires Sorted(s)
    ensures |r| == |s| + 1 && r[0] == (if |s| == 0 || x <= s[0] then x else s[0])
    ensures Sorted(r) && multiset(r) == multiset(s) + multiset{x}
  {
    if |s| == 0 || x <= s[0] then
      SortedCons(x, s);
      [x] + s
    else
      SortedTail(s);
      var rest := Insert(x, s[1..]);
      SortedCons(s[0], rest);
      assert multiset([s[0]] + rest) == multiset(s) + multiset{x} by {
        assert s == [s[0]] + s[1..];
      }
      [s[0]] + rest
  }

  /** Python's `sorted` on a list of integers: the ascending arrangement of
      the same values. */
  function Sort(s: seq<int>): (r: seq<int>)
    ensures |r| == |s| && Sorted(r) && multiset(r) == multiset(s)
  {
    if |s| == 0 then []
    else
      assert s == [s[0]] + s[1..];
      Insert(s[0], Sort(s[1..]))
  }

  /** The head of a sorted list is its smallest value. */
  lemma SortedHeadIsLeast(s: seq<int>, v: int)
    requires Sorted(s) && v in multiset(s)
    ensures s[0] <= v
  {
    var i :| 0 <= i < |s| && s[i] == v;
    assert s[0] <= s[i];
  }

  /** What is left of a list once its head is taken off. */
  lemma MultisetTail(s: seq<int>)
    requires |s| > 0
    ensures multiset(s[1..]) == multiset(s) - multiset{s[0]}
  {
    assert s == [s[0]] + s[1..];
  }

  /** There is one ascending arrangement of a collection of values. */
  lemma {:induction false} SortedUnique(a: seq<int>, b: seq<int>)
    requires Sorted(a) && Sorted(b) && multiset(a) == multiset(b)
    ensures a == b
  {
    assert |a| == |multiset(a)| == |multiset(b)| == |b|;
    if |a| > 0 {
      assert a[0] in multiset(a) && b[0] in multiset(b);
      SortedHeadIsLeast(a, b[0]);
      SortedHeadIsLeast(b, a[0]);
      MultisetTail(a);
      MultisetTail(b);
      SortedTail(a);
      SortedTail(b);
      assert a[0] == b[0];
      assert multiset(a[1..]) == multiset(b[1..]);
      SortedUnique(a[1..], b[1..]);
      forall k | 0 <= k < |a|
        ensures a[k] == b[k]
      {
        if k > 0 {
          assert a[k] == a[1..][k - 1] && b[k] == b[1..][k - 1];
        }
      }
    }
  }

  /** Sorting depends on the values only, not on their order. */
  lemma SortOfPermutation(s: seq<int>, t: seq<int>)
    requires multiset(s) == multiset(t)
    ensures Sort(s) == Sort(t)
  {
    SortedUnique(Sort(s), Sort(t));
  }

  function Abs(x: int): nat
  {
    if x < 0 then -x else x
  }

  function MinLength(a: seq<int>, b: seq<int>): nat
  {
    if |a| < |b| then |a| else |b|
  }

  /** The sum of `|a[k] - b[k]|` over two lists of the same length. */
  function PairedDistance(a: seq<int>, b: seq<int>): nat
    requires |a| == |b|
  {
    if |a| == 0 then 0
    else PairedDistance(a[..|a| - 1], b[..|b| - 1]) + Abs(a[|a| - 1] - b[|b| - 1])
  }

  /** The distance between two lists: `zip` of the sorted lists stops at
      the shorter one, so the largest values of the longer list are left
      unpaired. */
  function ListDistance(list1: seq<int>, list2: seq<int>): nat
  {
    var sorted1, sorted2 := Sort(list1), Sort(list2);
    var n := MinLength(sorted1, sorted2);
    PairedDistance(sorted1[..n], sorted2[..n])
  }

  /** compute_list_distances: sort both lists, then add up the gaps
      between the pairs `zip` forms. */
  method ComputeListDistances(list1: seq<int>, list2: seq<int>) returns (totalDistance: int)
    ensures totalDistance == ListDistance(list1, list2)
  {
    totalDistance := ZipDistance(Sort(list1), Sort(list2));
  }

  /** The `for` loop over `zip(sorted1, sorted2)`: the sum of the gaps
      between the pairs, up to the end of the shorter list. */
  method ZipDistance(sorted1: seq<int>, sorted2: seq<int>) returns (totalDistance: int)
    ensures var n := MinLength(sorted1, sorted2);
      totalDistance == PairedDistance(sorted1[..n], sorted2[..n])
  {
    var n := MinLength(sorted1, sorted2);
    totalDistance := 0;
    for i := 0 to n
      invariant totalDistance == PairedDistance(sorted1[..i], sorted2[..i])
    {
      assert sorted1[..i + 1][..i] == sorted1[..i] && sorted2[..i + 1][..i] == sorted2[..i];
      totalDistance := totalDistance + Abs(sorted1[i] - sorted2[i]);
    }
  }

  /** Pairs at distance 0 in total are pairs of equal values. */
  lemma {:induction false} PairedDistanceZero(a: seq<int>, b: seq<int>)
    requires |a| == |b|
    ensures PairedDistance(a, b) == 0 <==> a == b
  {
    if |a| > 0 {
      var n := |a| - 1;
      PairedDistanceZero(a[..n], b[..n]);
      assert a == a[..n] + [a[n]] && b == b[..n] + [b[n]];
    }
  }

  lemma {:induction false} PairedDistanceSymmetric(a: seq<int>, b: seq<int>)
    requires |a| == |b|
    ensures PairedDistance(a, b) == PairedDistance(b, a)
  {
    if |a| > 0 {
      PairedDistanceSymmetric(a[..|a| - 1], b[..|b| - 1]);
    }
  }

  /** The distance does not depend on which list comes first. */
  lemma DistanceSymmetric(list1: seq<int>, list2: seq<int>)
    ensures ListDistance(list1, list2) == ListDistance(list2, list1)
  {
    var sorted1, sorted2 := Sort(list1), Sort(list2);
    var n := MinLength(sorted1, sorted2);
    PairedDistanceSymmetric(sorted1[..n], sorted2[..n]);
  }

  /** The distance does not depend on the order of either list. */
  lemma DistanceIgnoresOrder(list1: seq<int>, list2: seq<int>, other1: seq<int>, other2: seq<int>)
    requires multiset(list1) == multiset(other1) && multiset(list2) == multiset(other2)
    ensures ListDistance(list1, list2) == ListDistance(other1, other2)
  {
    SortOfPermutation(list1, other1);
    SortOfPermutation(list2, other2);
  }

  /** Two lists of the same length are at distance 0 exactly when they hold
      the same values, each as often. */
  lemma DistanceZero(list1: seq<int>, list2: seq<int>)
    requires |list1| == |list2|
    ensures ListDistance(list1, list2) == 0 <==> multiset(list1) == multiset(list2)
  {
    var sorted1, sorted2 := Sort(list1), Sort(list2);
    assert |sorted1| == |multiset(list1)| && |sorted2| == |multiset(list2)|;
    assert sorted1[..|sorted1|] == sorted1 && sorted2[..|sorted2|] == sorted2;
    PairedDistanceZero(sorted1, sorted2);
    if multiset(list1) == multiset(list2) {
      SortOfPermutation(list1, list2);
    }
  }

  /** A value no smaller than any value of a sorted list can go last. */
  lemma SortedSnoc(t: seq<int>, x: int)
    requires Sorted(t) && forall k :: 0 <= k < |t| ==> t[k] <= x
    ensures Sorted(t + [x])
  {
    forall i, j | 0 <= i < j < |t| + 1
      ensures (t + [x])[i] <= (t + [x])[j]
    {
      if j < |t| {
        assert t[i] <= t[j];
      }
    }
  }

  /** Sorting a list with a largest value added at the end puts it last. */
  lemma SortAppendLargest(list1: seq<int>, x: int)
    requires forall k :: 0 <= k < |list1| ==> list1[k] <= x
    ensures Sort(list1 + [x]) == Sort(list1) + [x]
  {
    var sorted1 := Sort(list1);
    forall k | 0 <= k < |sorted1|
      ensures sorted1[k] <= x
    {
      assert sorted1[k] in multiset(list1);
    }
    SortedSnoc(sorted1, x);
    assert multiset(list1 + [x]) == multiset(list1) + multiset{x};
    assert multiset(sorted1 + [x]) == multiset(sorted1) + multiset{x};
    SortedUnique(Sort(list1 + [x]), sorted1 + [x]);
  }

  /** A value at least as large as every value of a list that is already
      at least as long as the other one is left unpaired. */
  lemma ExtraLargestIgnored(list1: seq<int>, list2: seq<int>, x: int)
    requires |list1| >= |list2|
    requires forall k :: 0 <= k < |list1| ==> list1[k] <= x
    ensures ListDistance(list1 + [x], list2) == ListDistance(list1, list2)
  {
    SortAppendLargest(list1, x);
    var sorted1, sorted2 := Sort(list1), Sort(list2);
    var n := |list2|;
    assert MinLength(sorted1 + [x], sorted2) == n == MinLength(sorted1, sorted2);
    assert (sorted1 + [x])[..n] == sorted1[..n];
  }

  /** The frequency-weighted sum: every value of `list1` times the number
      of times it occurs in `list2`. */
  function WeightedSum(list1: seq<int>, list2: seq<int>): int
  {
    if |list1| == 0 then 0
    else list1[0] * multiset(list2)[list1[0]] + WeightedSum(list1[1..], list2)
  }

  /** compute_similarity_score: `sum` of an empty comprehension is the
      plain integer 0, which has no `.values`, so an empty `list1` raises;
      otherwise the score is the frequency-weighted sum. */
  function SimilarityScore(list1: seq<int>, list2: seq<int>): (score: Option<int>)
    ensures score.None? <==> |list1| == 0
    ensures score.Some? ==> score.value == MatchingPairsSum(list1, list2)
  {
    if |list1| == 0 then None
    else
      WeightedSumIsMatchingPairsSum(list1, list2);
      Some(WeightedSum(list1, list2))
  }

  lemma {:induction false} WeightedSumAppend(a: seq<int>, b: seq<int>, list2: seq<int>)
    ensures WeightedSum(a + b, list2) == WeightedSum(a, list2) + WeightedSum(b, list2)
  {
    if |a| > 0 {
      assert (a + b)[0] == a[0] && (a + b)[1..] == a[1..] + b;
      WeightedSumAppend(a[1..], b, list2);
    } else {
      assert a + b == b;
    }
  }

  lemma {:induction false} WeightedSumPermutation(a: seq<int>, b: seq<int>, list2: seq<int>)
    requires multiset(a) == multiset(b)
    ensures WeightedSum(a, list2) == WeightedSum(b, list2)
  {
    assert |a| == |multiset(a)| == |multiset(b)| == |b|;
    if |a| > 0 {
      assert a[0] in multiset(b);
      var j :| 0 <= j < |b| && b[j] == a[0];
      var front, back := b[..j], b[j + 1..];
      assert b == front + [b[j]] + back;
      assert multiset(b) == multiset(front) + multiset{b[j]} + multiset(back);
      MultisetTail(a);
      assert multiset(a[1..]) == multiset(front + back);
      WeightedSumPermutation(a[1..], front + back, list2);
      WeightedSumAppend(front + [b[j]], back, list2);
      WeightedSumAppend(front, [b[j]], list2);
      WeightedSumAppend(front, back, list2);
      assert WeightedSum([b[j]], list2) == b[j] * multiset(list2)[b[j]];
    }
  }

  /** Only how often each value occurs in `list2` matters. */
  lemma {:induction false} WeightedSumCounts(list1: seq<int>, list2: seq<int>, other2: seq<int>)
    requires multiset(list2) == multiset(other2)
    ensures WeightedSum(list1, list2) == WeightedSum(list1, other2)
  {
    if |list1| > 0 {
      WeightedSumCounts(list1[1..], list2, other2);
    }
  }

  /** The score does not depend on the order of either list. */
  lemma SimilarityIgnoresOrder(list1: seq<int>, list2: seq<int>, other1: seq<int>, other2: seq<int>)
    requires multiset(list1) == multiset(other1) && multiset(list2) == multiset(other2)
    ensures SimilarityScore(list1, list2) == SimilarityScore(other1, other2)
  {
    assert |list1| == |multiset(list1)| == |multiset(other1)| == |other1|;
    WeightedSumPermutation(list1, other1, list2);
    WeightedSumCounts(other1, list2, other2);
  }

  /** A value that does not occur in `list2` adds nothing to the score,
      wherever it stands in `list1`. */
  lemma AbsentValueAddsNothing(before: seq<int>, after: seq<int>, list2: seq<int>, x: int)
    requires x !in list2 && |before + after| > 0
    ensures SimilarityScore(before + [x] + after, list2) == SimilarityScore(before + after, list2)
  {
    assert multiset(list2)[x] == 0;
    WeightedSumAppend(before + [x], after, list2);
    WeightedSumAppend(before, [x], list2);
    WeightedSumAppend(before, after, list2);
  }

  /** `v` once for every occurrence of `v` in `b`. */
  function MatchedSum(v: int, b: seq<int>): int
  {
    if |b| == 0 then 0 else (if b[0] == v then v else 0) + MatchedSum(v, b[1..])
  }

  /** The value of every matching pair `(a[i], b[j])` with `a[i] == b[j]`,
      added up over all pairs: a description of the score that treats the
      two lists alike. */
  function MatchingPairsSum(a: seq<int>, b: seq<int>): int
  {
    if |a| == 0 then 0 else MatchedSum(a[0], b) + MatchingPairsSum(a[1..], b)
  }

  /** Kept apart so that the solver meets this product outside the
      multiset reasoning of `MatchedSumCounts`. */
  lemma Distribute(v: int, m: int, n: int)
    ensures v * (m + n) == v * m + v * n
  {
  }

  lemma {:induction false} MatchedSumCounts(v: int, b: seq<int>)
    ensures MatchedSum(v, b) == v * multiset(b)[v]
  {
    if |b| > 0 {
      MatchedSumCounts(v, b[1..]);
      MultisetTail(b);
      var rest := multiset(b[1..])[v];
      var here := if b[0] == v then 1 else 0;
      assert multiset(b)[v] == rest + here;
      Distribute(v, rest, here);
    }
  }

  /** The frequency-weighted sum is the sum over matching pairs. */
  lemma {:induction false} WeightedSumIsMatchingPairsSum(a: seq<int>, b: seq<int>)
    ensures WeightedSum(a, b) == MatchingPairsSum(a, b)
  {
    if |a| > 0 {
      MatchedSumCounts(a[0], b);
      WeightedSumIsMatchingPairsSum(a[1..], b);
    }
  }

  lemma {:induction false} MatchingPairsSumConsRight(a: seq<int>, v: int, t: seq<int>)
    ensures MatchingPairsSum(a, [v] + t) == MatchedSum(v, a) + MatchingPairsSum(a, t)
  {
    if |a| > 0 {
      MatchingPairsSumConsRight(a[1..], v, t);
      assert ([v] + t)[0] == v && ([v] + t)[1..] == t;
    }
  }

  lemma {:induction false} MatchingPairsSumEmptyRight(a: seq<int>)
    ensures MatchingPairsSum(a, []) == 0
  {
    if |a| > 0 {
      MatchingPairsSumEmptyRight(a[1..]);
    }
  }

  lemma {:induction false} MatchingPairsSumSymmetric(a: seq<int>, b: seq<int>)
    ensures MatchingPairsSum(a, b) == MatchingPairsSum(b, a)
  {
    if |a| == 0 {
      MatchingPairsSumEmptyRight(b);
    } else {
      MatchingPairsSumSymmetric(a[1..], b);
      MatchingPairsSumConsRight(b, a[0], a[1..]);
      assert a == [a[0]] + a[1..];
    }
  }

  /** Swapping the two lists leaves the score unchanged (when neither is
      empty, so that neither order raises). */
  lemma SimilaritySymmetric(list1: seq<int>, list2: seq<int>)
    requires |list1| > 0 && |list2| > 0
    ensures SimilarityScore(list1, list2) == SimilarityScore(list2, list1)
  {
    WeightedSumIsMatchingPairsSum(list1, list2);
    WeightedSumIsMatchingPairsSum(list2, list1);
    MatchingPairsSumSymmetric(list1, list2);
  }
}
