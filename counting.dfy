/** lodash `countBy` and `get` with a default, over finite maps. */
module Counting {

  import Seqs

  /** `_.get(m, k, default)`. */
  function Lookup<K, V>(m: map<K, V>, k: K, default: V): V
  {
    if k in m then m[k] else default
  }

  /** How many elements of `xs` have key `k`. */
  function Occurrences<T, K(==)>(xs: seq<T>, key: T -> K, k: K): nat
  {
    if xs == [] then 0
    else (if key(xs[0]) == k then 1 else 0) + Occurrences(xs[1..], key, k)
  }

  /**
   * `_.countBy(xs, key)`: every key that some element has, mapped to the
   * number of elements that have it; keys with no element are absent.
   */
  function CountBy<T, K(==, !new)>(xs: seq<T>, key: T -> K): (m: map<K, nat>)
    ensures forall k :: k in m ==> m[k] > 0
    ensures forall k :: Lookup(m, k, 0) == Occurrences(xs, key, k)
  {
    if xs == [] then map[]
    else
      var m := CountBy(xs[1..], key);
      var k := key(xs[0]);
      m[k := Lookup(m, k, 0) + 1]
  }

  /** Counting by identity counts multiplicities. */
  lemma {:induction false} OccurrencesIdentity<T>(xs: seq<T>, x: T)
    ensures Occurrences(xs, Seqs.Identity, x) == multiset(xs)[x]
  {
    if xs != [] {
      OccurrencesIdentity(xs[1..], x);
      assert xs == [xs[0]] + xs[1..];
    }
  }
}
