/** Counting occurrences the way a dictionary filled by `counts[k] += 1` does: one
    entry per distinct key, in order of first occurrence. */
module Tally {
  /** The counts of `keys`, built one occurrence at a time. */
  function Counts<K(==)>(keys: seq<K>): seq<(K, nat)> {
    if keys == [] then [] else Bump(Counts(keys[..|keys| - 1]), keys[|keys| - 1])
  }

  /** Adds one to the count of `k`, appending `(k, 1)` when `k` is new. */
  function Bump<K(==)>(counts: seq<(K, nat)>, k: K): (r: seq<(K, nat)>)
    ensures |r| == |counts| || |r| == |counts| + 1
  {
    if counts == [] then [(k, 1)]
    else if counts[0].0 == k then [(k, counts[0].1 + 1)] + counts[1..]
    else [counts[0]] + Bump(counts[1..], k)
  }

  /** The count recorded for `k`, 0 when `k` is not a key. */
  function CountOf<K(==)>(counts: seq<(K, nat)>, k: K): nat {
    if counts == [] then 0 else if counts[0].0 == k then counts[0].1 else CountOf(counts[1..], k)
  }

  /** The keys of the counts, in order. */
  function Keys<K>(counts: seq<(K, nat)>): seq<K> {
    if counts == [] then [] else [counts[0].0] + Keys(counts[1..])
  }

  /** No key is listed twice. */
  predicate NoDuplicateKeys<K(==)>(counts: seq<(K, nat)>) {
    counts == [] || (counts[0].0 !in Keys(counts[1..]) && NoDuplicateKeys(counts[1..]))
  }

  function SumCounts<K>(counts: seq<(K, nat)>): nat {
    if counts == [] then 0 else counts[0].1 + SumCounts(counts[1..])
  }

  lemma {:induction false} BumpFacts<K>(counts: seq<(K, nat)>, k: K)
    ensures SumCounts(Bump(counts, k)) == SumCounts(counts) + 1
    ensures forall x :: CountOf(Bump(counts, k), x) == CountOf(counts, x) + (if x == k then 1 else 0)
    ensures forall x :: x in Keys(Bump(counts, k)) <==> x in Keys(counts) || x == k
    ensures NoDuplicateKeys(counts) ==> NoDuplicateKeys(Bump(counts, k))
  {
    if counts != [] && counts[0].0 != k {
      BumpFacts(counts[1..], k);
      assert Bump(counts, k)[1..] == Bump(counts[1..], k);
    } else if counts != [] {
      assert Bump(counts, k)[1..] == counts[1..];
    }
  }

  /** The counts list each key once, count every occurrence, and add up to the
      number of occurrences. */
  lemma CountsExact<K>(keys: seq<K>)
    ensures NoDuplicateKeys(Counts(keys))
    ensures forall k :: k in Keys(Counts(keys)) <==> k in keys
    ensures forall k :: CountOf(Counts(keys), k) == multiset(keys)[k]
    ensures SumCounts(Counts(keys)) == |keys|
  {
    CountsKeys(keys);
    forall k ensures CountOf(Counts(keys), k) == multiset(keys)[k] {
      CountsOccurrences(keys, k);
    }
    CountsSum(keys);
  }

  lemma {:induction false} CountsKeys<K>(keys: seq<K>)
    ensures NoDuplicateKeys(Counts(keys))
    ensures forall k :: k in Keys(Counts(keys)) <==> k in keys
  {
    if keys != [] {
      var init, k := keys[..|keys| - 1], keys[|keys| - 1];
      CountsKeys(init);
      BumpFacts(Counts(init), k);
      assert keys == init + [k];
    }
  }

  lemma {:induction false} CountsOccurrences<K>(keys: seq<K>, x: K)
    ensures CountOf(Counts(keys), x) == multiset(keys)[x]
  {
    if keys != [] {
      var init, k := keys[..|keys| - 1], keys[|keys| - 1];
      CountsOccurrences(init, x);
      BumpFacts(Counts(init), k);
      assert keys == init + [k];
      assert multiset(keys) == multiset(init) + multiset{k};
    }
  }

  lemma {:induction false} CountsSum<K>(keys: seq<K>)
    ensures SumCounts(Counts(keys)) == |keys|
  {
    if keys != [] {
      CountsSum(keys[..|keys| - 1]);
      BumpFacts(Counts(keys[..|keys| - 1]), keys[|keys| - 1]);
    }
  }
}
