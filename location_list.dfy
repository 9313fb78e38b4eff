/**
 * Day 1: two location lists. The total distance pairs the lists up after
 * sorting each one and adds the distances of the pairs; the similarity score
 * adds every left value times the number of times it occurs in the right list.
 */
module LocationList {

  import opened Seqs
  import opened Sorting
  import opened Counting

  function Abs(x: int): int { if x < 0 then -x else x }

  /** `_.sortBy(list)` with no iteratee: ascending numeric order. */
  function SortNumbers(xs: seq<int>): seq<int>
  {
    SortBy(xs, Identity)
  }

  /** `_.zipWith(a, b, (x, y) => Math.abs(x - y))` on lists of equal length. */
  function PairDistances(a: seq<int>, b: seq<int>): (d: seq<int>)
    requires |a| == |b|
    ensures |d| == |a|
    ensures forall i :: 0 <= i < |d| ==> d[i] >= 0
  {
    seq(|a|, i requires 0 <= i < |a| => Abs(a[i] - b[i]))
  }

  /** `totalDistance`: the sum of the distances between the sorted lists, paired up. */
  function TotalDistance(left: seq<int>, right: seq<int>): (d: int)
    requires |left| == |right|
    ensures d >= 0
  {
    var ds := PairDistances(SortNumbers(left), SortNumbers(right));
    SumNonNegative(ds);
    Sum(ds)
  }

  /** Sorting numbers by identity keeps each value with its multiplicity. */
  lemma {:induction false} KeyFilterIdentity(s: seq<int>, k: int)
    ensures KeyFilter(s, Identity, k) == seq(multiset(s)[k], _ => k)
  {
    if s != [] {
      KeyFilterIdentity(s[1..], k);
      assert s == [s[0]] + s[1..];
    }
  }

  /** Sorted numbers depend only on the multiset of the list. */
  lemma SortNumbersPermutation(a: seq<int>, b: seq<int>)
    requires multiset(a) == multiset(b)
    ensures SortNumbers(a) == SortNumbers(b)
  {
    forall k ensures KeyFilter(a, Identity, k) == KeyFilter(b, Identity, k) {
      KeyFilterIdentity(a, k);
      KeyFilterIdentity(b, k);
    }
    SortByCanonical(a, b, Identity);
  }

  /** Any sorted rearrangement of a list is its sorted form. */
  lemma SortNumbersIs(s: seq<int>, t: seq<int>)
    requires multiset(s) == multiset(t)
    requires forall i, j :: 0 <= i < j < |t| ==> t[i] <= t[j]
    ensures SortNumbers(s) == t
  {
    assert SortBy(t, Identity) == t by {
      forall k ensures KeyFilter(SortBy(t, Identity), Identity, k) == KeyFilter(t, Identity, k) { }
      SortedByUnique(SortBy(t, Identity), t, Identity);
    }
    SortNumbersPermutation(s, t);
  }

  /** Permuting either list does not change the total distance. */
  lemma TotalDistancePermutation(left: seq<int>, right: seq<int>, left': seq<int>, right': seq<int>)
    requires |left| == |right|
    requires multiset(left) == multiset(left') && multiset(right) == multiset(right')
    ensures |left'| == |right'|
    ensures TotalDistance(left, right) == TotalDistance(left', right')
  {
    assert |left| == |multiset(left)| == |multiset(left')| == |left'|;
    assert |right| == |multiset(right)| == |multiset(right')| == |right'|;
    SortNumbersPermutation(left, left');
    SortNumbersPermutation(right, right');
  }

  /** Swapping the two lists does not change the total distance. */
  lemma TotalDistanceSymmetric(left: seq<int>, right: seq<int>)
    requires |left| == |right|
    ensures TotalDistance(left, right) == TotalDistance(right, left)
  {
    PairDistancesSymmetric(SortNumbers(left), SortNumbers(right));
  }

  lemma PairDistancesSymmetric(a: seq<int>, b: seq<int>)
    requires |a| == |b|
    ensures PairDistances(a, b) == PairDistances(b, a)
  {
    forall i | 0 <= i < |a| ensures PairDistances(a, b)[i] == PairDistances(b, a)[i] {
      assert Abs(a[i] - b[i]) == Abs(b[i] - a[i]);
    }
  }

  /** Two lists holding the same values, in any order, are at distance 0. */
  lemma TotalDistanceOfPermutation(left: seq<int>, right: seq<int>)
    requires multiset(left) == multiset(right)
    ensures |left| == |right|
    ensures TotalDistance(left, right) == 0
  {
    assert |left| == |multiset(left)| == |multiset(right)| == |right|;
    SortNumbersPermutation(left, right);
    SumZeros(PairDistances(SortNumbers(left), SortNumbers(right)));
  }

  /** `_.countBy(rightList)`: how often each value occurs. */
  function Frequencies(xs: seq<int>): (m: map<int, nat>)
    ensures forall n :: Lookup(m, n, 0) == multiset(xs)[n]
    ensures forall n :: n in m <==> n in xs
  {
    var m := CountBy(xs, Identity);
    forall n ensures Lookup(m, n, 0) == multiset(xs)[n] {
      OccurrencesIdentity(xs, n);
    }
    forall n ensures n in m <==> n in xs {
      assert multiset(xs)[n] > 0 <==> n in xs;
    }
    m
  }

  /** `totalSimilarityScore`: each left value times its frequency in the right list, summed. */
  function TotalSimilarityScore(left: seq<int>, right: seq<int>): int
  {
    var freq := Frequencies(right);
    Sum(seq(|left|, i requires 0 <= i < |left| => left[i] * Lookup(freq, left[i], 0)))
  }

  /** The similarity score by its definition: a sum over the left list of value times multiplicity on the right. */
  function Similarity(left: seq<int>, right: seq<int>): int
  {
    if left == [] then 0
    else left[0] * multiset(right)[left[0]] + Similarity(left[1..], right)
  }

  /** The computed score is the defined one; a left value absent on the right adds 0. */
  lemma {:induction false} TotalSimilarityScoreIsSimilarity(left: seq<int>, right: seq<int>)
    ensures TotalSimilarityScore(left, right) == Similarity(left, right)
  {
    if left != [] {
      TotalSimilarityScoreIsSimilarity(left[1..], right);
      var freq := Frequencies(right);
      var terms := seq(|left|, i requires 0 <= i < |left| => left[i] * Lookup(freq, left[i], 0));
      assert terms[1..] == seq(|left[1..]|, i requires 0 <= i < |left[1..]| => left[1..][i] * Lookup(freq, left[1..][i], 0));
    }
  }

  lemma {:induction false} SimilarityRemove(left: seq<int>, right: seq<int>, i: nat)
    requires i < |left|
    ensures Similarity(left, right) == left[i] * multiset(right)[left[i]] + Similarity(left[..i] + left[i + 1..], right)
  {
    if i > 0 {
      SimilarityRemove(left[1..], right, i - 1);
      assert (left[..i] + left[i + 1..])[1..] == left[1..][..i - 1] + left[1..][i..];
    } else {
      assert left[..i] + left[i + 1..] == left[1..];
    }
  }

  /** Permuting either list does not change the similarity score. */
  lemma {:induction false} SimilarityPermutation(left: seq<int>, right: seq<int>, left': seq<int>, right': seq<int>)
    requires multiset(left) == multiset(left') && multiset(right) == multiset(right')
    ensures Similarity(left, right) == Similarity(left', right')
    decreases |left|
  {
    if left == [] {
      assert |left'| == |multiset(left')| == 0;
      SimilarityOfEmpty(left', right');
    } else {
      assert left[0] in multiset(left');
      var i :| 0 <= i < |left'| && left'[i] == left[0];
      var rest := left'[..i] + left'[i + 1..];
      MultisetRemove(left', i);
      MultisetTail(left);
      SimilarityRemove(left', right', i);
      SimilarityPermutation(left[1..], right, rest, right');
    }
  }

  lemma MultisetRemove(s: seq<int>, i: nat)
    requires i < |s|
    ensures multiset(s[..i] + s[i + 1..]) == multiset(s) - multiset{s[i]}
  {
    assert s == s[..i] + [s[i]] + s[i + 1..];
  }

  lemma MultisetTail(s: seq<int>)
    requires s != []
    ensures multiset(s[1..]) == multiset(s) - multiset{s[0]}
  {
    assert s == [s[0]] + s[1..];
  }

  lemma SimilarityOfEmpty(left: seq<int>, right: seq<int>)
    requires left == []
    ensures Similarity(left, right) == 0
  {
  }

  /** Permuting either list does not change the total similarity score. */
  lemma TotalSimilarityScorePermutation(left: seq<int>, right: seq<int>, left': seq<int>, right': seq<int>)
    requires multiset(left) == multiset(left') && multiset(right) == multiset(right')
    ensures TotalSimilarityScore(left, right) == TotalSimilarityScore(left', right')
  {
    TotalSimilarityScoreIsSimilarity(left, right);
    TotalSimilarityScoreIsSimilarity(left', right');
    SimilarityPermutation(left, right, left', right');
  }

  lemma SampleSorted(t: seq<int>)
    requires t == [1, 2, 3, 3, 3, 4] || t == [3, 3, 3, 4, 5, 9]
    ensures forall i, j :: 0 <= i < j < |t| ==> t[i] <= t[j]
  {
  }

  lemma SampleDistances(a: seq<int>, b: seq<int>)
    requires a == [1, 2, 3, 3, 3, 4] && b == [3, 3, 3, 4, 5, 9]
    ensures Sum(PairDistances(a, b)) == 11
  {
    assert PairDistances(a, b) == [2, 1, 0, 1, 2, 5];
    assert Sum([2, 1, 0, 1, 2, 5]) == 11;
  }

  lemma SampleLeftValues()
    ensures multiset([3, 4, 2, 1, 3, 3]) == multiset([1, 2, 3, 3, 3, 4])
  {
  }

  lemma SampleRightValues()
    ensures multiset([4, 3, 5, 3, 9, 3]) == multiset([3, 3, 3, 4, 5, 9])
  {
  }

  lemma SampleTotalDistanceSorted(left: seq<int>, right: seq<int>, sl: seq<int>, sr: seq<int>)
    requires multiset(left) == multiset(sl) && multiset(right) == multiset(sr)
    requires sl == [1, 2, 3, 3, 3, 4] && sr == [3, 3, 3, 4, 5, 9]
    ensures |left| == |right|
    ensures TotalDistance(left, right) == 11
  {
    assert |left| == |multiset(sl)| == 6 == |multiset(sr)| == |right|;
    SampleSorted(sl);
    SampleSorted(sr);
    SortNumbersIs(left, sl);
    SortNumbersIs(right, sr);
    SampleDistances(sl, sr);
  }

  /** The sample lists, in any order: distance 11. */
  lemma SampleTotalDistance(left: seq<int>, right: seq<int>)
    requires multiset(left) == multiset([3, 4, 2, 1, 3, 3])
    requires multiset(right) == multiset([4, 3, 5, 3, 9, 3])
    ensures |left| == |right|
    ensures TotalDistance(left, right) == 11
  {
    SampleLeftValues();
    SampleRightValues();
    SampleTotalDistanceSorted(left, right, [1, 2, 3, 3, 3, 4], [3, 3, 3, 4, 5, 9]);
  }

  /** The sample lists: similarity score 31. */
  lemma SampleTotalSimilarityScore()
    ensures TotalSimilarityScore([3, 4, 2, 1, 3, 3], [4, 3, 5, 3, 9, 3]) == 31
  {
    var left, right := [3, 4, 2, 1, 3, 3], [4, 3, 5, 3, 9, 3];
    TotalSimilarityScoreIsSimilarity(left, right);
    SampleMultiplicities(right);
    SampleSimilarity(left, right);
  }

  lemma SampleMultiplicities(right: seq<int>)
    requires right == [4, 3, 5, 3, 9, 3]
    ensures multiset(right)[1] == 0 && multiset(right)[2] == 0 && multiset(right)[3] == 3 && multiset(right)[4] == 1
  {
    OccurrencesIdentity(right, 1);
    OccurrencesIdentity(right, 2);
    OccurrencesIdentity(right, 3);
    OccurrencesIdentity(right, 4);
  }

  lemma SampleSimilarity(left: seq<int>, right: seq<int>)
    requires left == [3, 4, 2, 1, 3, 3]
    requires multiset(right)[1] == 0 && multiset(right)[2] == 0 && multiset(right)[3] == 3 && multiset(right)[4] == 1
    ensures Similarity(left, right) == 31
  {
    assert Similarity(left[5..], right) == 9 by { assert left[5..][1..] == []; }
    assert Similarity(left[4..], right) == 18 by { assert left[4..][1..] == left[5..]; }
    assert Similarity(left[3..], right) == 18 by { assert left[3..][1..] == left[4..]; }
    assert Similarity(left[2..], right) == 18 by { assert left[2..][1..] == left[3..]; }
    assert Similarity(left[1..], right) == 22 by { assert left[1..][1..] == left[2..]; }
  }
}
