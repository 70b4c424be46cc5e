/**
 * The random source of the rotation, made explicit. A run draws natural numbers
 * from a stream; a draw `d` used to choose among `n` candidates picks the one at
 * index `d % n`. Every outcome the library's sampling can produce is reached by
 * some stream, and every property of the model holds for every stream.
 */
module Random {
  import opened Collections

  type Stream = seq<nat>

  /** The next draw; an exhausted stream keeps drawing 0. */
  function Head(rng: Stream): nat {
    if rng == [] then 0 else rng[0]
  }

  function Tail(rng: Stream): Stream {
    if rng == [] then [] else rng[1..]
  }

  /** The stream after `n` draws. */
  function Skip(rng: Stream, n: nat): Stream {
    if n <= |rng| then rng[n..] else []
  }

  /**
   * `random.sample(pool, k)`: `k` elements taken from distinct positions of
   * `pool`, in the order they were drawn. Consumes `k` draws.
   */
  function Sample<T(==)>(pool: seq<T>, k: nat, rng: Stream): (r: seq<T>)
    requires k <= |pool|
    ensures |r| == k
    ensures multiset(r) <= multiset(pool)
    ensures k == |pool| ==> multiset(r) == multiset(pool)
    ensures forall x | x in r :: x in pool
    ensures Distinct(pool) ==> Distinct(r)
    decreases k
  {
    if k == 0 then []
    else
      var j := Head(rng) % |pool|;
      var rest := RemoveAt(pool, j);
      var r := [pool[j]] + Sample(rest, k - 1, Tail(rng));
      assert multiset(r) == multiset{pool[j]} + multiset(Sample(rest, k - 1, Tail(rng)));
      assert Distinct(pool) ==> Distinct(r) by {
        if Distinct(pool) { SubMultisetDistinct(r, pool); }
      }
      r
  }

  /** `pool` without the element at position `j`. */
  function RemoveAt<T(==)>(pool: seq<T>, j: nat): (rest: seq<T>)
    requires j < |pool|
    ensures |rest| == |pool| - 1
    ensures multiset(pool) == multiset(rest) + multiset{pool[j]}
    ensures forall x | x in rest :: x in pool
    ensures Distinct(pool) ==> Distinct(rest) && pool[j] !in rest
  {
    assert pool == pool[..j] + [pool[j]] + pool[j + 1..];
    pool[..j] + pool[j + 1..]
  }

  /** `random.choice(pool)`. Consumes one draw. */
  function Choice<T>(pool: seq<T>, rng: Stream): (x: T)
    requires |pool| > 0
    ensures x in pool
  {
    pool[Head(rng) % |pool|]
  }

  /** A draw can pick any element: the draw `j` picks the element at `j`. */
  lemma ChoiceReaches<T>(pool: seq<T>, j: nat)
    requires j < |pool|
    ensures Choice(pool, [j]) == pool[j]
  {
  }

  /** A first draw `j` makes the element at `j` the first one sampled. */
  lemma SampleReachesFirst<T>(pool: seq<T>, k: nat, j: nat, rest: Stream)
    requires 0 < k <= |pool| && j < |pool|
    ensures Sample(pool, k, [j] + rest)[0] == pool[j]
  {
    var rng := [j] + rest;
    assert Head(rng) == j;
    assert Head(rng) % |pool| == j;
    var tail := Sample(RemoveAt(pool, j), k - 1, Tail(rng));
    assert Sample(pool, k, rng) == [pool[j]] + tail;
  }

  /** `random.shuffle` of a pair leaves either the pair or its swap. */
  lemma ShufflePair<T>(a: T, b: T, rng: Stream)
    ensures Sample([a, b], 2, rng) == [a, b] || Sample([a, b], 2, rng) == [b, a]
  {
    if Head(rng) % 2 == 0 {
      SamplePairKeeps(a, b, rng);
    } else {
      SamplePairSwaps(a, b, rng);
    }
  }

  /** An even first draw takes the first element first. */
  lemma SamplePairKeeps<T>(a: T, b: T, rng: Stream)
    requires Head(rng) % 2 == 0
    ensures Sample([a, b], 2, rng) == [a, b]
  {
    assert RemoveAt([a, b], 0) == [b];
    SampleSingle([b], Tail(rng));
  }

  /** An odd first draw takes the second element first. */
  lemma SamplePairSwaps<T>(a: T, b: T, rng: Stream)
    requires Head(rng) % 2 == 1
    ensures Sample([a, b], 2, rng) == [b, a]
  {
    assert RemoveAt([a, b], 1) == [a];
    SampleSingle([a], Tail(rng));
  }

  /** Sampling the one element of a singleton gives that element. */
  lemma SampleSingle<T>(pool: seq<T>, rng: Stream)
    requires |pool| == 1
    ensures Sample(pool, 1, rng) == pool
  {
    assert Head(rng) % 1 == 0;
    assert RemoveAt(pool, 0) == [];
  }
}
