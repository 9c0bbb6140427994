/** Counters per bucket: whatever the interleaving, a counter that admits while it has
    not passed its limit admits the first `limit` requests of each bucket. */
module Metering {
  import opened Arithmetic

  /** How many of the requests fall into bucket `k`. */
  function Requests<K(==)>(buckets: seq<K>, k: K): nat {
    if buckets == [] then 0
    else
      var n := |buckets| - 1;
      Requests(buckets[..n], k) + if buckets[n] == k then 1 else 0
  }

  /** How many of them found the counter, their own request included, within the limit. */
  function Admitted<K(==)>(buckets: seq<K>, k: K, limit: int): nat {
    if buckets == [] then 0
    else
      var n := |buckets| - 1;
      Admitted(buckets[..n], k, limit) + if buckets[n] == k && Requests(buckets, k) <= limit then 1 else 0
  }

  /** Of n requests in a bucket exactly min(n, limit) are admitted. */
  lemma {:induction false} AdmitsExactlyTheLimit<K>(buckets: seq<K>, k: K, limit: nat)
    ensures Admitted(buckets, k, limit) == Min(Requests(buckets, k), limit)
    decreases |buckets|
  {
    if buckets != [] {
      AdmitsExactlyTheLimit(buckets[..|buckets| - 1], k, limit);
    }
  }

  lemma RequestsStep<K>(buckets: seq<K>, b: K, k: K)
    ensures Requests(buckets + [b], k) == Requests(buckets, k) + if b == k then 1 else 0
  {
    assert (buckets + [b])[..|buckets|] == buckets;
  }
}
