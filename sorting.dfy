/**
 * Stable sorting by an integer key, the common core of lodash `sortBy` and
 * `orderBy`: elements with a smaller key come first and elements with equal
 * keys keep their input order. A descending order is a sort by the negated key.
 */
module Sorting {
  import Seqs

  predicate SortedBy<T>(s: seq<T>, key: T -> int)
  {
    forall i, j :: 0 <= i < j < |s| ==> key(s[i]) <= key(s[j])
  }

  /** The elements of `s` whose key is `k`, in their order in `s`. */
  function KeyFilter<T>(s: seq<T>, key: T -> int, k: int): seq<T>
  {
    if s == [] then []
    else (if key(s[0]) == k then [s[0]] else []) + KeyFilter(s[1..], key, k)
  }

  /** Inserts `x` in front of the first element whose key is not smaller. */
  function Insert<T>(x: T, s: seq<T>, key: T -> int): (r: seq<T>)
    requires SortedBy(s, key)
    ensures |r| == |s| + 1
    ensures r[0] == x || (s != [] && r[0] == s[0])
    ensures SortedBy(r, key)
    ensures multiset(r) == multiset(s) + multiset{x}
    ensures forall k :: KeyFilter(r, key, k) == (if key(x) == k then [x] else []) + KeyFilter(s, key, k)
  {
    if s == [] || key(x) <= key(s[0]) then
      InsertFront(x, s, key);
      [x] + s
    else
      var t := Insert(x, s[1..], key);
      InsertBehind(x, s, t, key);
      [s[0]] + t
  }

  /** The base case of Insert: `x` goes in front. */
  lemma InsertFront<T>(x: T, s: seq<T>, key: T -> int)
    requires SortedBy(s, key) && (s == [] || key(x) <= key(s[0]))
    ensures SortedBy([x] + s, key)
    ensures forall k :: KeyFilter([x] + s, key, k) == (if key(x) == k then [x] else []) + KeyFilter(s, key, k)
  {
    var r := [x] + s;
    assert r[1..] == s;
    forall i, j | 0 <= i < j < |r| ensures key(r[i]) <= key(r[j]) {
      if i == 0 {
        assert key(r[0]) <= key(s[0]) <= key(s[j - 1]);
      } else {
        assert r[i] == s[i - 1] && r[j] == s[j - 1];
      }
    }
  }

  /** The recursive step of Insert: `x` belongs behind `s[0]`. */
  lemma InsertBehind<T>(x: T, s: seq<T>, t: seq<T>, key: T -> int)
    requires SortedBy(s, key) && s != [] && key(s[0]) < key(x)
    requires SortedBy(t, key) && |t| == |s|
    requires t[0] == x || (|s| > 1 && t[0] == s[1])
    requires multiset(t) == multiset(s[1..]) + multiset{x}
    requires forall k :: KeyFilter(t, key, k) == (if key(x) == k then [x] else []) + KeyFilter(s[1..], key, k)
    ensures SortedBy([s[0]] + t, key)
    ensures multiset([s[0]] + t) == multiset(s) + multiset{x}
    ensures forall k :: KeyFilter([s[0]] + t, key, k) == (if key(x) == k then [x] else []) + KeyFilter(s, key, k)
  {
    InsertBehindSorted(x, s, t, key);
    InsertBehindMultiset(x, s, t);
    forall k ensures KeyFilter([s[0]] + t, key, k) == (if key(x) == k then [x] else []) + KeyFilter(s, key, k) {
      InsertBehindFilter(x, s, t, key, k);
    }
  }

  lemma InsertBehindSorted<T>(x: T, s: seq<T>, t: seq<T>, key: T -> int)
    requires SortedBy(s, key) && s != [] && key(s[0]) < key(x)
    requires SortedBy(t, key) && |t| == |s|
    requires t[0] == x || (|s| > 1 && t[0] == s[1])
    ensures SortedBy([s[0]] + t, key)
  {
    var r := [s[0]] + t;
    forall i, j | 0 <= i < j < |r| ensures key(r[i]) <= key(r[j]) {
      if i == 0 {
        assert key(r[0]) <= key(t[0]) <= key(t[j - 1]);
      } else {
        assert r[i] == t[i - 1] && r[j] == t[j - 1];
      }
    }
  }

  lemma InsertBehindMultiset<T>(x: T, s: seq<T>, t: seq<T>)
    requires s != [] && multiset(t) == multiset(s[1..]) + multiset{x}
    ensures multiset([s[0]] + t) == multiset(s) + multiset{x}
  {
    assert s == [s[0]] + s[1..];
  }

  lemma InsertBehindFilter<T>(x: T, s: seq<T>, t: seq<T>, key: T -> int, k: int)
    requires s != [] && key(s[0]) < key(x)
    requires KeyFilter(t, key, k) == (if key(x) == k then [x] else []) + KeyFilter(s[1..], key, k)
    ensures KeyFilter([s[0]] + t, key, k) == (if key(x) == k then [x] else []) + KeyFilter(s, key, k)
  {
    var r := [s[0]] + t;
    assert r[1..] == t;
    assert KeyFilter(r, key, k) == (if key(s[0]) == k then [s[0]] else []) + KeyFilter(t, key, k);
    assert KeyFilter(s, key, k) == (if key(s[0]) == k then [s[0]] else []) + KeyFilter(s[1..], key, k);
  }

  /** An insertion sort; stable because each element goes in front of its equals. */
  function SortBy<T>(s: seq<T>, key: T -> int): (r: seq<T>)
    ensures |r| == |s|
    ensures SortedBy(r, key)
    ensures multiset(r) == multiset(s)
    ensures forall k :: KeyFilter(r, key, k) == KeyFilter(s, key, k)
  {
    if s == [] then []
    else
      assert s == [s[0]] + s[1..];
      Insert(s[0], SortBy(s[1..], key), key)
  }

  lemma {:induction false} KeyFilterEmpty<T>(s: seq<T>, key: T -> int, k: int)
    requires forall i :: 0 <= i < |s| ==> key(s[i]) != k
    ensures KeyFilter(s, key, k) == []
  {
    if s != [] {
      KeyFilterEmpty(s[1..], key, k);
    }
  }

  lemma KeyFilterHead<T>(s: seq<T>, key: T -> int)
    requires s != []
    ensures KeyFilter(s, key, key(s[0])) != []
  {
  }

  /**
   * A sequence sorted by `key` is determined by which elements carry each key:
   * two sorted sequences with the same elements per key, in the same order, are equal.
   */
  lemma {:induction false} SortedByUnique<T>(a: seq<T>, b: seq<T>, key: T -> int)
    requires SortedBy(a, key) && SortedBy(b, key)
    requires forall k :: KeyFilter(a, key, k) == KeyFilter(b, key, k)
    ensures a == b
    decreases |a| + |b|
  {
    if a == [] || b == [] {
      if a != b {
        KeyFilterHead(if a == [] then b else a, key);
        assert false;
      }
    } else {
      var ka, kb := key(a[0]), key(b[0]);
      if ka != kb {
        var lo, hi := if ka < kb then a else b, if ka < kb then b else a;
        assert KeyFilter(lo, key, key(lo[0])) != [];
        KeyFilterEmpty(hi, key, key(lo[0]));
      } else {
        assert KeyFilter(a, key, ka)[0] == a[0];
        assert KeyFilter(b, key, ka)[0] == b[0];
        assert a[0] == b[0];
        forall k ensures KeyFilter(a[1..], key, k) == KeyFilter(b[1..], key, k) {
          var p := if ka == k then [a[0]] else [];
          assert KeyFilter(a, key, k) == p + KeyFilter(a[1..], key, k);
          assert KeyFilter(b, key, k) == p + KeyFilter(b[1..], key, k);
          assert KeyFilter(a[1..], key, k) == KeyFilter(a, key, k)[|p|..];
          assert KeyFilter(b[1..], key, k) == KeyFilter(b, key, k)[|p|..];
        }
        SortedByUnique(a[1..], b[1..], key);
        assert a == [a[0]] + a[1..] && b == [b[0]] + b[1..];
      }
    }
  }

  /** Sorting gives the same result for any two inputs with the same elements per key in the same order. */
  lemma SortByCanonical<T>(s: seq<T>, t: seq<T>, key: T -> int)
    requires forall k :: KeyFilter(s, key, k) == KeyFilter(t, key, k)
    ensures SortBy(s, key) == SortBy(t, key)
  {
    SortedByUnique(SortBy(s, key), SortBy(t, key), key);
  }

  /** The elements `KeyFilter` keeps all come from the list and have the key asked for. */
  lemma {:induction false} KeyFilterMembers<T>(s: seq<T>, key: T -> int, k: int)
    ensures forall x :: x in KeyFilter(s, key, k) ==> x in s && key(x) == k
  {
    if s != [] {
      KeyFilterMembers(s[1..], key, k);
    }
  }

  /** Keeping the elements with one key keeps a list sorted by another key sorted. */
  lemma {:induction false} KeyFilterSorted<T>(s: seq<T>, key: T -> int, other: T -> int, k: int)
    requires SortedBy(s, other)
    ensures SortedBy(KeyFilter(s, key, k), other)
  {
    if s != [] {
      var t := KeyFilter(s[1..], key, k);
      KeyFilterSorted(s[1..], key, other, k);
      KeyFilterMembers(s[1..], key, k);
      if key(s[0]) == k {
        var r := [s[0]] + t;
        forall i, j | 0 <= i < j < |r|
          ensures other(r[i]) <= other(r[j])
        {
          if i == 0 {
            assert r[j] == t[j - 1] && r[j] in s[1..];
          } else {
            assert r[i] == t[i - 1] && r[j] == t[j - 1];
          }
        }
      }
    }
  }

  /** Sorting a list without repeated elements gives a list without repeated elements. */
  lemma SortByDistinct<T>(s: seq<T>, key: T -> int)
    requires Seqs.Distinct(s)
    ensures Seqs.Distinct(SortBy(s, key))
  {
    Seqs.DistinctPermutation(s, SortBy(s, key));
  }
}
