/** Sequences without repeats, filtering, and Python's insertion-ordered dict. */
module Collections {

  /** No element occurs twice. */
  predicate Distinct<T(==)>(s: seq<T>) {
    forall i, j | 0 <= i < j < |s| :: s[i] != s[j]
  }

  /** The elements of a sequence, as a set. */
  function Elems<T>(s: seq<T>): set<T> {
    set x | x in s
  }

  /** The list comprehension `[x for x in s if x not in excluded]`. */
  function Without<T(==)>(s: seq<T>, excluded: set<T>): (r: seq<T>)
    ensures forall x | x in r :: x in s && x !in excluded
    ensures forall x | x in s && x !in excluded :: x in r
    ensures |r| <= |s|
    ensures Distinct(s) ==> Distinct(r)
  {
    if s == [] then []
    else if s[0] in excluded then Without(s[1..], excluded)
    else
      var rest := Without(s[1..], excluded);
      assert Distinct(s) ==> s[0] !in s[1..];
      [s[0]] + rest
  }

  /** The position of the first element satisfying `p`, or `|s|` when none does. */
  function FirstWhere<T>(s: seq<T>, p: T -> bool): (i: nat)
    ensures i <= |s|
    ensures i < |s| ==> p(s[i])
    ensures forall j | 0 <= j < i :: !p(s[j])
  {
    if s == [] then 0
    else if p(s[0]) then 0
    else
      var k := FirstWhere(s[1..], p);
      assert forall j | 1 <= j < k + 1 :: s[j] == s[1..][j - 1];
      k + 1
  }

  /** A position whose element satisfies `p`, with none before it, is the first one. */
  lemma FirstWhereUnique<T>(s: seq<T>, p: T -> bool, i: nat)
    requires i < |s| && p(s[i])
    requires forall j | 0 <= j < i :: !p(s[j])
    ensures FirstWhere(s, p) == i
  {
  }

  /** A sequence without repeats has as many elements as its set. */
  lemma {:induction false} DistinctCard<T>(s: seq<T>)
    requires Distinct(s)
    ensures |Elems(s)| == |s|
  {
    if s != [] {
      DistinctCard(s[1..]);
      assert Elems(s) == {s[0]} + Elems(s[1..]);
      assert s[0] !in Elems(s[1..]);
    }
  }

  /** Filtering a sequence without repeats removes exactly the excluded elements it holds. */
  lemma {:induction false} WithoutCard<T>(s: seq<T>, excluded: set<T>)
    requires Distinct(s)
    ensures |Without(s, excluded)| == |s| - |excluded * Elems(s)|
  {
    if s != [] {
      var rest := s[1..];
      assert Distinct(rest);
      WithoutCard(rest, excluded);
      var dropped := excluded * Elems(rest);
      assert s[0] !in rest;
      assert s[0] !in dropped;
      assert Elems(s) == {s[0]} + Elems(rest);
      if s[0] in excluded {
        assert excluded * Elems(s) == dropped + {s[0]};
        assert Without(s, excluded) == Without(rest, excluded);
      } else {
        assert excluded * Elems(s) == dropped;
        assert Without(s, excluded) == [s[0]] + Without(rest, excluded);
      }
    }
  }

  /** A sequence drawn from distinct positions of a repeat-free sequence has no repeats. */
  lemma {:induction false} SubMultisetDistinct<T>(r: seq<T>, s: seq<T>)
    requires Distinct(s)
    requires multiset(r) <= multiset(s)
    ensures Distinct(r)
  {
    forall i, j | 0 <= i < j < |r| ensures r[i] != r[j] {
      if r[i] == r[j] {
        CountAtLeastTwo(r, i, j);
        CountAtMostOne(s, r[i]);
        assert false;
      }
    }
  }

  lemma {:induction false} CountAtLeastTwo<T>(r: seq<T>, i: nat, j: nat)
    requires i < j < |r| && r[i] == r[j]
    ensures multiset(r)[r[i]] >= 2
  {
    assert r == r[..i] + [r[i]] + r[i + 1..j] + [r[j]] + r[j + 1..];
    assert multiset(r) == multiset(r[..i]) + multiset{r[i]} + multiset(r[i + 1..j]) + multiset{r[j]} + multiset(r[j + 1..]);
  }

  lemma {:induction false} CountAtMostOne<T>(s: seq<T>, x: T)
    requires Distinct(s)
    ensures multiset(s)[x] <= 1
  {
    if s != [] {
      CountAtMostOne(s[1..], x);
      assert s == [s[0]] + s[1..];
      assert multiset(s) == multiset{s[0]} + multiset(s[1..]);
      if s[0] == x {
        assert x !in s[1..];
      }
    }
  }

  /**
   * A Python dict: its keys in insertion order, and the value of each key.
   * Assigning to a present key keeps the key's position.
   */
  datatype OrderedMap<K(==), V> = OrderedMap(keys: seq<K>, values: map<K, V>) {

    predicate Valid() {
      Distinct(keys) && values.Keys == Elems(keys)
    }

    /** `d[k] = v`. */
    function Put(k: K, v: V): (m: OrderedMap<K, V>)
      requires Valid()
      ensures m.Valid()
      ensures m.values == values[k := v]
      ensures k in values ==> m.keys == keys
      ensures k !in values ==> m.keys == keys + [k]
    {
      if k in values then OrderedMap(keys, values[k := v])
      else OrderedMap(keys + [k], values[k := v])
    }
  }

  /** `{}` */
  function EmptyMap<K(==), V>(): (m: OrderedMap<K, V>)
    ensures m.Valid() && m.keys == []
  {
    OrderedMap([], map[])
  }
}
