/**
 * `assign_operations`: every person left after the help-desk selection gets two
 * of the configured operations tasks, preferring tasks whose label is not among
 * the labels that person was given in the previous run.
 */
module Operations {
  import opened Collections
  import opened Random
  import opened Text

  /** Person -> the two tasks assigned today, in insertion order. */
  type Assignments = OrderedMap<string, seq<string>>

  datatype Result<T> = Success(value: T) | Failure(error: string)

  const NoOperations := "No operations configured"

  /** `set(last_ops.get(person, []))`: the labels `person` was given in the previous run. */
  function PreviousLabels(lastOps: map<string, seq<string>>, person: string): (prev: set<string>)
    ensures person !in lastOps ==> prev == {}
    ensures person in lastOps ==> forall l :: l in prev <==> l in lastOps[person]
  {
    if person in lastOps then Elems(lastOps[person]) else {}
  }

  /** The tasks whose normalised label was not assigned in the previous run. */
  function Fresh(operations: seq<string>, prev: set<string>): (freshOps: seq<string>)
    ensures forall t | t in freshOps :: t in operations && Label(t) !in prev
    ensures forall t | t in operations && Label(t) !in prev :: t in freshOps
    ensures |freshOps| <= |operations|
    ensures multiset(freshOps) <= multiset(operations)
  {
    if operations == [] then []
    else
      var rest := Fresh(operations[1..], prev);
      assert operations == [operations[0]] + operations[1..];
      if Label(operations[0]) in prev then rest else [operations[0]] + rest
  }

  /**
   * The pair one person may receive: the only task twice when one task is
   * configured; otherwise two tasks from distinct positions of the fresh ones
   * when there are at least two of those, the single fresh task together with a
   * different task when there is exactly one, and two tasks from distinct
   * positions of the whole list when none is fresh.
   */
  predicate IsPick(operations: seq<string>, prev: set<string>, picked: seq<string>) {
    |picked| == 2 && picked[0] in operations && picked[1] in operations &&
    if |operations| == 1 then picked == [operations[0], operations[0]]
    else
      var freshOps := Fresh(operations, prev);
      if |freshOps| >= 2 then multiset(picked) <= multiset(freshOps)
      else if |freshOps| == 1 then
        (picked[0] == freshOps[0] && picked[1] != freshOps[0]) || (picked[1] == freshOps[0] && picked[0] != freshOps[0])
      else multiset(picked) <= multiset(operations)
  }

  /** The picked tasks whose label was not assigned in the previous run. */
  function FreshCount(picked: seq<string>, prev: set<string>): (n: nat)
    ensures n <= |picked|
  {
    if picked == [] then 0
    else (if Label(picked[0]) in prev then 0 else 1) + FreshCount(picked[1..], prev)
  }

  /**
   * Repeat avoidance is as strong as it can be: a pick holds as many tasks
   * that are new to the person as there are (up to two).
   */
  lemma PickMaximisesFresh(operations: seq<string>, prev: set<string>, picked: seq<string>)
    requires |operations| >= 2
    requires IsPick(operations, prev, picked)
    ensures FreshCount(picked, prev) == if |Fresh(operations, prev)| >= 2 then 2 else |Fresh(operations, prev)|
  {
    var freshOps := Fresh(operations, prev);
    FreshCountPair(picked, prev);
    if |freshOps| >= 2 {
      assert picked[0] in multiset(picked) && picked[1] in multiset(picked);
      assert picked[0] in freshOps && picked[1] in freshOps;
    } else if |freshOps| == 1 {
      if picked[0] == freshOps[0] {
        OneFreshCount(operations, prev, picked[0], picked[1]);
      } else {
        OneFreshCount(operations, prev, picked[1], picked[0]);
      }
    } else {
      assert picked[0] !in freshOps && picked[1] !in freshOps;
    }
  }

  /** The fresh count of a pair, task by task. */
  lemma FreshCountPair(picked: seq<string>, prev: set<string>)
    requires |picked| == 2
    ensures FreshCount(picked, prev) == (if Label(picked[0]) in prev then 0 else 1) + (if Label(picked[1]) in prev then 0 else 1)
  {
    assert picked[1..][1..] == [];
  }

  /** With one fresh task, the pick that holds it and another task is fresh once. */
  lemma OneFreshCount(operations: seq<string>, prev: set<string>, f: string, other: string)
    requires |Fresh(operations, prev)| == 1 && f == Fresh(operations, prev)[0]
    requires other in operations && other != f
    ensures Label(f) !in prev && Label(other) in prev
  {
    var freshOps := Fresh(operations, prev);
    assert freshOps == [f];
    assert other !in freshOps;
  }

  /**
   * With exactly one fresh task among at least two, some task differs from it:
   * the candidates for the second pick are never empty.
   */
  lemma {:induction false} OtherTaskExists(operations: seq<string>, prev: set<string>)
    requires |operations| >= 2
    requires |Fresh(operations, prev)| == 1
    ensures |Without(operations, {Fresh(operations, prev)[0]})| > 0
  {
    var f := Fresh(operations, prev)[0];
    assert f in Fresh(operations, prev);
    OneFreshHead(operations, prev);
    var k := if Label(operations[0]) in prev then 0 else 1;
    var t := operations[k];
    assert t in operations && t !in {f};
    assert t in Without(operations, {f});
  }

  /** With at most one fresh task, one of the first two tasks is not fresh. */
  lemma OneFreshHead(operations: seq<string>, prev: set<string>)
    requires |operations| >= 2 && |Fresh(operations, prev)| <= 1
    ensures Label(operations[0]) in prev || Label(operations[1]) in prev
  {
  }

  /** When the configured tasks are all different, nobody is given the same task twice. */
  lemma PickTwoDifferent(operations: seq<string>, prev: set<string>, picked: seq<string>)
    requires |operations| >= 2 && Distinct(operations)
    requires IsPick(operations, prev, picked)
    ensures picked[0] != picked[1]
  {
    var freshOps := Fresh(operations, prev);
    if |freshOps| >= 2 {
      SubMultisetDistinct(freshOps, operations);
      SubMultisetDistinct(picked, freshOps);
    } else if |freshOps| == 0 {
      SubMultisetDistinct(picked, operations);
    }
  }

  /** A task assigned in the previous run is not fresh for the same person. */
  lemma {:induction false} PreviousTaskNotFresh(operations: seq<string>, previous: seq<string>, t: string)
    requires t in previous
    ensures t !in Fresh(operations, Elems(LabelsOf(previous)))
  {
    var k :| 0 <= k < |previous| && previous[k] == t;
    assert LabelsOf(previous)[k] == Label(t);
  }

  /** `[extract_task_name(t).casefold() for t in tasks]`: the labels remembered for a person. */
  function LabelsOf(tasks: seq<string>): (labels: seq<string>)
    ensures |labels| == |tasks|
    ensures forall i | 0 <= i < |labels| :: Fold(labels[i]) == labels[i]
  {
    seq(|tasks|, i requires 0 <= i < |tasks| => Label(tasks[i]))
  }

  /** `{person: [operations[0], operations[0]] for person in people}`. */
  function SameForAll(people: seq<string>, pair: seq<string>): (m: Assignments)
    ensures m.Valid()
    ensures Elems(m.keys) == Elems(people)
    ensures Distinct(people) ==> m.keys == people
    ensures forall p | p in m.values :: m.values[p] == pair
  {
    if people == [] then EmptyMap()
    else
      var prefix := people[..|people| - 1];
      assert people == prefix + [people[|people| - 1]];
      assert Distinct(people) ==> people[|people| - 1] !in prefix;
      SameForAll(prefix, pair).Put(people[|people| - 1], pair)
  }

  /** Every person's pair obeys the freshness rule against that person's previous labels. */
  predicate AllPicks(operations: seq<string>, lastOps: map<string, seq<string>>, m: Assignments) {
    forall p | p in m.values :: IsPick(operations, PreviousLabels(lastOps, p), m.values[p])
  }

  lemma PutKeepsPicks(operations: seq<string>, lastOps: map<string, seq<string>>, m: Assignments, person: string, picked: seq<string>)
    requires m.Valid() && AllPicks(operations, lastOps, m)
    requires IsPick(operations, PreviousLabels(lastOps, person), picked)
    ensures AllPicks(operations, lastOps, m.Put(person, picked))
  {
  }

  /** Assigning the next person keeps the keys equal to the people seen so far. */
  lemma PutInOrder<V>(m: OrderedMap<string, V>, people: seq<string>, i: nat, v: V)
    requires i < |people|
    requires m.Valid() && Elems(m.keys) == Elems(people[..i])
    requires Distinct(people[..i]) ==> m.keys == people[..i]
    ensures Elems(m.Put(people[i], v).keys) == Elems(people[..i + 1])
    ensures Distinct(people[..i + 1]) ==> m.Put(people[i], v).keys == people[..i + 1]
  {
    assert people[..i + 1] == people[..i] + [people[i]];
    assert Distinct(people[..i + 1]) ==> Distinct(people[..i]) && people[i] !in people[..i];
  }

  lemma SingleTaskIsPick(operations: seq<string>, lastOps: map<string, seq<string>>, people: seq<string>)
    requires |operations| == 1
    ensures AllPicks(operations, lastOps, SameForAll(people, [operations[0], operations[0]]))
  {
  }

  /**
   * `assign_operations(remaining, operations, last_ops)`: nothing to do without
   * people; a configuration error without tasks; otherwise every person is
   * mapped, in order, to a pair obeying the freshness rule of `IsPick`.
   */
  method AssignOperations(remaining: seq<string>, operations: seq<string>, lastOps: map<string, seq<string>>, rng: Stream)
    returns (r: Result<Assignments>)
    ensures remaining == [] ==> r == Success(EmptyMap())
    ensures remaining != [] && operations == [] ==> r == Failure(NoOperations)
    ensures remaining != [] && operations != [] ==> r.Success?
    ensures r.Success? ==> r.value.Valid() && Elems(r.value.keys) == Elems(remaining)
    ensures r.Success? && Distinct(remaining) ==> r.value.keys == remaining
    ensures r.Success? ==> AllPicks(operations, lastOps, r.value)
  {
    if remaining == [] {
      return Success(EmptyMap());
    }
    if operations == [] {
      return Failure(NoOperations);
    }
    if |operations| == 1 {
      SingleTaskIsPick(operations, lastOps, remaining);
      return Success(SameForAll(remaining, [operations[0], operations[0]]));
    }
    var assignments: Assignments := EmptyMap();
    var draws := rng;
    for i := 0 to |remaining|
      invariant assignments.Valid()
      invariant Elems(assignments.keys) == Elems(remaining[..i])
      invariant Distinct(remaining[..i]) ==> assignments.keys == remaining[..i]
      invariant AllPicks(operations, lastOps, assignments)
    {
      var person := remaining[i];
      var picked;
      picked, draws := PickFor(operations, PreviousLabels(lastOps, person), draws);
      PutKeepsPicks(operations, lastOps, assignments, person, picked);
      PutInOrder(assignments, remaining, i, picked);
      assignments := assignments.Put(person, picked);
    }
    assert remaining[..|remaining|] == remaining;
    return Success(assignments);
  }

  /**
   * The body of the loop of `assign_operations` for one person whose previous
   * labels are `prev`: the pair it picks, and the random stream left after it.
   */
  method PickFor(operations: seq<string>, prev: set<string>, rng: Stream) returns (picked: seq<string>, rest: Stream)
    requires |operations| >= 2
    ensures IsPick(operations, prev, picked)
  {
    var freshOps := Fresh(operations, prev);
    if |freshOps| >= 2 {
      picked := Sample(freshOps, 2, rng);
      rest := Skip(rng, 2);
      SampleFreshIsPick(operations, prev, rng);
    } else if |freshOps| == 1 {
      OtherTaskExists(operations, prev);
      var second := Choice(Without(operations, {freshOps[0]}), rng);
      rest := Skip(rng, 1);
      picked := Sample([freshOps[0], second], 2, rest);
      GuaranteedFreshIsPick(operations, prev, second, rest);
      rest := Skip(rest, 2);
    } else {
      picked := Sample(operations, 2, rng);
      rest := Skip(rng, 2);
      SampleAllIsPick(operations, prev, rng);
    }
  }

  lemma SampleFreshIsPick(operations: seq<string>, prev: set<string>, rng: Stream)
    requires |operations| >= 2 && |Fresh(operations, prev)| >= 2
    ensures IsPick(operations, prev, Sample(Fresh(operations, prev), 2, rng))
  {
    var picked := Sample(Fresh(operations, prev), 2, rng);
    assert picked[0] in picked && picked[1] in picked;
  }

  lemma GuaranteedFreshIsPick(operations: seq<string>, prev: set<string>, second: string, rng: Stream)
    requires |operations| >= 2 && |Fresh(operations, prev)| == 1
    requires second in Without(operations, {Fresh(operations, prev)[0]})
    ensures IsPick(operations, prev, Sample([Fresh(operations, prev)[0], second], 2, rng))
  {
    var first := Fresh(operations, prev)[0];
    assert first in Fresh(operations, prev);
    ShufflePair(first, second, rng);
  }

  lemma SampleAllIsPick(operations: seq<string>, prev: set<string>, rng: Stream)
    requires |operations| >= 2 && |Fresh(operations, prev)| == 0
    ensures IsPick(operations, prev, Sample(operations, 2, rng))
  {
    var picked := Sample(operations, 2, rng);
    assert picked[0] in picked && picked[1] in picked;
  }
}
