/**
 * `run_selection`: the day's help-desk pair and the operations pool. People are
 * keyed by their case-folded name; day-excluded people are removed from the
 * whole rotation, history-excluded people only from the help desk, and only
 * while at least two others are left for it.
 */
module Selection {
  import opened Collections
  import opened Random
  import opened Text
  import opened Operations

  /** No later entry of the roster has the same folded name as entry `i`. */
  predicate LastOfItsKey(people: seq<string>, i: int)
    requires 0 <= i < |people|
  {
    forall j | i < j < |people| :: Fold(people[j]) != Fold(people[i])
  }

  /**
   * `name_lookup = {p.casefold(): p for p in people}`: keyed by folded name, in
   * order of first appearance, each key mapped to a spelling of it from the roster.
   */
  function NameLookup(people: seq<string>): (m: OrderedMap<string, string>)
    ensures m.Valid()
    ensures forall p | p in people :: Fold(p) in m.values
    ensures forall k | k in m.values :: Fold(m.values[k]) == k && m.values[k] in people
  {
    if people == [] then EmptyMap()
    else
      var init := people[..|people| - 1];
      var last := people[|people| - 1];
      assert people == init + [last];
      NameLookup(init).Put(Fold(last), last)
  }

  /** When names differ only in case, the lookup keeps the one that comes last in the roster. */
  lemma {:induction false} LastSpellingWins(people: seq<string>, i: nat)
    requires i < |people| && LastOfItsKey(people, i)
    ensures NameLookup(people).values[Fold(people[i])] == people[i]
  {
    var init := people[..|people| - 1];
    if i < |people| - 1 {
      assert Fold(people[|people| - 1]) != Fold(people[i]);
      assert init[i] == people[i];
      assert LastOfItsKey(init, i) by {
        forall j | i < j < |init| ensures Fold(init[j]) != Fold(init[i]) {
          assert init[j] == people[j];
        }
      }
      LastSpellingWins(init, i);
    }
  }

  /** `history_excluded_lower = {n.casefold() for n in history_excluded}` */
  function FoldSet(names: set<string>): (folded: set<string>)
    ensures forall n | n in names :: Fold(n) in folded
    ensures forall k | k in folded :: exists n | n in names :: Fold(n) == k
  {
    set n | n in names :: Fold(n)
  }

  /** `available_keys`: the roster's keys, in order, without today's excluded ones. */
  function AvailableKeys(people: seq<string>, dayExcludedLower: set<string>): (keys: seq<string>)
    ensures Distinct(keys)
    ensures forall k | k in keys :: k in NameLookup(people).values && k !in dayExcludedLower
    ensures forall p | p in people && Fold(p) !in dayExcludedLower :: Fold(p) in keys
  {
    Without(NameLookup(people).keys, dayExcludedLower)
  }

  /** `eligible_keys`, after the fall-back to every available key when fewer than two remain. */
  function HelpdeskPool(available: seq<string>, historyExcludedLower: set<string>): (pool: seq<string>)
    ensures forall k | k in pool :: k in available
    ensures Distinct(available) ==> Distinct(pool)
    ensures |pool| >= 2 || pool == available
    ensures |Without(available, historyExcludedLower)| >= 2 ==> pool == Without(available, historyExcludedLower)
    ensures |Without(available, historyExcludedLower)| < 2 ==> pool == available
  {
    var eligible := Without(available, historyExcludedLower);
    if |eligible| < 2 then available else eligible
  }

  /** `[name_lookup[k] for k in keys]` */
  function Names(people: seq<string>, keys: seq<string>): (names: seq<string>)
    requires forall k | k in keys :: k in NameLookup(people).values
    ensures |names| == |keys|
    ensures forall i | 0 <= i < |keys| :: Fold(names[i]) == keys[i] && names[i] in people
    ensures Distinct(keys) ==> Distinct(names)
  {
    var lookup := NameLookup(people).values;
    seq(|keys|, i requires 0 <= i < |keys| => lookup[keys[i]])
  }

  /** Folding the looked-up names gives back exactly the keys. */
  lemma FoldedNames(people: seq<string>, keys: seq<string>)
    requires forall k | k in keys :: k in NameLookup(people).values
    ensures FoldSet(Elems(Names(people, keys))) == Elems(keys)
  {
    var names := Names(people, keys);
    forall k | k in Elems(keys) ensures k in FoldSet(Elems(names)) {
      var i :| 0 <= i < |keys| && keys[i] == k;
      assert names[i] in names;
    }
  }

  datatype Rotation = Rotation(selected: seq<string>, assignments: Assignments)

  /**
   * The help desk of a run: two people, or everyone available when fewer than
   * two are, from distinct roster entries, none of them excluded today, and none
   * of them history-excluded while at least two available people are not.
   */
  predicate HelpdeskRule(people: seq<string>, dayExcludedLower: set<string>, historyExcluded: set<string>,
                         selected: seq<string>)
  {
    var available := AvailableKeys(people, dayExcludedLower);
    && |selected| == (if |available| < 2 then |available| else 2)
    && Distinct(selected)
    && (forall p | p in selected :: p in people && Fold(p) in available && Fold(p) !in dayExcludedLower)
    && (|Without(available, FoldSet(historyExcluded))| >= 2 ==>
          forall p | p in selected :: Fold(p) !in FoldSet(historyExcluded))
  }

  /**
   * The operations pool of a run: available people not on the help desk
   * (compared by folded name), without repeats; all of them, unless it is a
   * reduced day with more than two of them, when it is two of them.
   */
  predicate PoolRule(people: seq<string>, dayExcludedLower: set<string>, reducedOps: bool,
                     selected: seq<string>, pool: seq<string>)
  {
    var available := AvailableKeys(people, dayExcludedLower);
    && Distinct(pool)
    && (forall p | p in pool :: p in people && Fold(p) in available && Fold(p) !in dayExcludedLower)
    && FoldSet(Elems(pool)) <= Elems(available) - FoldSet(Elems(selected))
    && (!reducedOps || |available| - |selected| <= 2 ==> FoldSet(Elems(pool)) == Elems(available) - FoldSet(Elems(selected)))
    && (!reducedOps || |available| - |selected| <= 2 ==> |pool| == |available| - |selected|)
    && (reducedOps && |available| - |selected| > 2 ==> |pool| == 2)
  }

  /**
   * `run_selection`. The help desk follows `HelpdeskRule`; the operations pool
   * follows `PoolRule` and each person in it gets a pair of tasks obeying the
   * freshness rule. Without tasks, a pool that is not empty is a configuration
   * error, and that happens exactly when more than two people are available.
   */
  method RunSelection(people: seq<string>, operations: seq<string>, historyExcluded: set<string>,
                      dayExcludedLower: set<string>, reducedOps: bool, lastOps: map<string, seq<string>>, rng: Stream)
    returns (r: Result<Rotation>)
    ensures r.Failure? <==> operations == [] && |AvailableKeys(people, dayExcludedLower)| > 2
    ensures r.Success? ==> HelpdeskRule(people, dayExcludedLower, historyExcluded, r.value.selected)
    ensures r.Success? ==>
      (r.value.assignments.Valid() &&
       PoolRule(people, dayExcludedLower, reducedOps, r.value.selected, r.value.assignments.keys))
    ensures r.Success? ==> AllPicks(operations, lastOps, r.value.assignments)
  {
    var availableKeys := AvailableKeys(people, dayExcludedLower);
    var selectedKeys, draws := PickHelpdesk(availableKeys, FoldSet(historyExcluded), rng);
    var remainingKeys, poolDraws := PickPool(availableKeys, selectedKeys, reducedOps, draws);
    var selected := Names(people, selectedKeys);
    var remaining := Names(people, remainingKeys);
    HelpdeskNames(people, dayExcludedLower, historyExcluded, selectedKeys);
    PoolNames(people, dayExcludedLower, reducedOps, selectedKeys, remainingKeys);
    var outcome := AssignOperations(remaining, operations, lastOps, poolDraws);
    if outcome.Failure? {
      return Failure(outcome.error);
    }
    assert outcome.value.keys == remaining;
    return Success(Rotation(selected, outcome.value));
  }

  /** The names of the help-desk keys follow the help-desk rule. */
  lemma HelpdeskNames(people: seq<string>, dayExcludedLower: set<string>, historyExcluded: set<string>,
                      selectedKeys: seq<string>)
    requires var available := AvailableKeys(people, dayExcludedLower);
      && |selectedKeys| == (if |available| < 2 then |available| else 2)
      && Distinct(selectedKeys)
      && (forall k | k in selectedKeys :: k in available)
      && (|Without(available, FoldSet(historyExcluded))| >= 2 ==> forall k | k in selectedKeys :: k !in FoldSet(historyExcluded))
    ensures HelpdeskRule(people, dayExcludedLower, historyExcluded, Names(people, selectedKeys))
  {
    var selected := Names(people, selectedKeys);
    NamesAvailable(people, dayExcludedLower, selectedKeys);
    FoldedNames(people, selectedKeys);
    forall p | p in selected ensures Fold(p) in selectedKeys {
      assert Fold(p) in FoldSet(Elems(selected));
    }
  }

  /** The names of the pool keys follow the pool rule. */
  lemma PoolNames(people: seq<string>, dayExcludedLower: set<string>, reducedOps: bool,
                  selectedKeys: seq<string>, remainingKeys: seq<string>)
    requires var available := AvailableKeys(people, dayExcludedLower);
      && |selectedKeys| == (if |available| < 2 then |available| else 2)
      && Distinct(selectedKeys) && (forall k | k in selectedKeys :: k in available)
      && Distinct(remainingKeys)
      && (forall k | k in remainingKeys :: k in available && k !in selectedKeys)
      && (!reducedOps || |available| - |selectedKeys| <= 2 ==>
            (Elems(remainingKeys) == Elems(available) - Elems(selectedKeys) && |remainingKeys| == |available| - |selectedKeys|))
      && (reducedOps && |available| - |selectedKeys| > 2 ==> |remainingKeys| == 2)
    ensures PoolRule(people, dayExcludedLower, reducedOps, Names(people, selectedKeys), Names(people, remainingKeys))
    ensures |remainingKeys| > 0 <==> |AvailableKeys(people, dayExcludedLower)| > 2
  {
    var selected := Names(people, selectedKeys);
    var pool := Names(people, remainingKeys);
    var available := AvailableKeys(people, dayExcludedLower);
    NamesAvailable(people, dayExcludedLower, remainingKeys);
    FoldedNames(people, selectedKeys);
    FoldedNames(people, remainingKeys);
    assert Elems(remainingKeys) <= Elems(available) - Elems(selectedKeys);
  }

  /** The names of available keys are roster names, available and not excluded today. */
  lemma NamesAvailable(people: seq<string>, dayExcludedLower: set<string>, keys: seq<string>)
    requires forall k | k in keys :: k in AvailableKeys(people, dayExcludedLower)
    ensures forall k | k in keys :: k in NameLookup(people).values
    ensures forall p | p in Names(people, keys) ::
      p in people && Fold(p) in AvailableKeys(people, dayExcludedLower) && Fold(p) !in dayExcludedLower
  {
    var names := Names(people, keys);
    forall p | p in names
      ensures p in people && Fold(p) in AvailableKeys(people, dayExcludedLower) && Fold(p) !in dayExcludedLower
    {
      var i :| 0 <= i < |names| && names[i] == p;
      assert keys[i] in keys;
    }
  }

  /**
   * The help-desk part of `run_selection`: history-excluded keys are set aside
   * while at least two others remain, the pool is shuffled and its first two
   * (or all, when fewer) are taken. Returns the draws left over.
   */
  method PickHelpdesk(availableKeys: seq<string>, historyExcludedLower: set<string>, rng: Stream)
    returns (selectedKeys: seq<string>, draws: Stream)
    requires Distinct(availableKeys)
    ensures |selectedKeys| == if |availableKeys| < 2 then |availableKeys| else 2
    ensures Distinct(selectedKeys)
    ensures forall k | k in selectedKeys :: k in availableKeys
    ensures |Without(availableKeys, historyExcludedLower)| >= 2 ==> forall k | k in selectedKeys :: k !in historyExcludedLower
  {
    var eligibleKeys := Without(availableKeys, historyExcludedLower);
    if |eligibleKeys| < 2 {
      eligibleKeys := availableKeys;
    }
    assert eligibleKeys == HelpdeskPool(availableKeys, historyExcludedLower);
    var numHelpdesk := if |eligibleKeys| < 2 then |eligibleKeys| else 2;
    var shuffledKeys := Sample(eligibleKeys, |eligibleKeys|, rng);
    draws := Skip(rng, |eligibleKeys|);
    SelectedFromPool(availableKeys, historyExcludedLower, eligibleKeys, shuffledKeys, numHelpdesk);
    selectedKeys := shuffledKeys[..numHelpdesk];
  }

  /**
   * The operations part of `run_selection`: every available key not on the help
   * desk, cut down to a random two on a reduced day when more than two remain.
   */
  method PickPool(availableKeys: seq<string>, selectedKeys: seq<string>, reducedOps: bool, rng: Stream)
    returns (remainingKeys: seq<string>, draws: Stream)
    requires Distinct(availableKeys) && Distinct(selectedKeys)
    requires forall k | k in selectedKeys :: k in availableKeys
    ensures Distinct(remainingKeys)
    ensures forall k | k in remainingKeys :: k in availableKeys && k !in selectedKeys
    ensures !reducedOps || |availableKeys| - |selectedKeys| <= 2 ==>
      Elems(remainingKeys) == Elems(availableKeys) - Elems(selectedKeys) && |remainingKeys| == |availableKeys| - |selectedKeys|
    ensures reducedOps && |availableKeys| - |selectedKeys| > 2 ==> |remainingKeys| == 2
  {
    remainingKeys := Without(availableKeys, Elems(selectedKeys));
    RemainingCount(availableKeys, selectedKeys);
    draws := rng;
    if reducedOps && |remainingKeys| > 2 {
      remainingKeys := Sample(remainingKeys, 2, draws);
      draws := Skip(draws, 2);
    }
  }

  /** The help-desk keys: distinct available keys, as many as the fall-back promises. */
  lemma SelectedFromPool(available: seq<string>, historyExcludedLower: set<string>, pool: seq<string>,
                         shuffled: seq<string>, n: nat)
    requires Distinct(available)
    requires pool == HelpdeskPool(available, historyExcludedLower)
    requires multiset(shuffled) == multiset(pool) && Distinct(shuffled)
    requires n == if |pool| < 2 then |pool| else 2
    ensures n <= |shuffled| && n == (if |available| < 2 then |available| else 2)
    ensures Distinct(shuffled[..n])
    ensures forall k | k in shuffled[..n] :: k in pool && k in available
    ensures |Without(available, historyExcludedLower)| >= 2 ==> forall k | k in shuffled[..n] :: k !in historyExcludedLower
  {
    assert |shuffled| == |multiset(shuffled)| == |pool|;
    forall k | k in shuffled[..n] ensures k in pool {
      assert k in multiset(shuffled);
    }
    if |pool| < 2 {
      assert pool == available;
    } else {
      assert |available| >= |pool| by {
        WithoutCard(available, historyExcludedLower);
      }
    }
  }

  /** Removing the help-desk keys from the available ones leaves the rest, counted. */
  lemma RemainingCount(available: seq<string>, selected: seq<string>)
    requires Distinct(available) && Distinct(selected)
    requires forall k | k in selected :: k in available
    ensures |Without(available, Elems(selected))| == |available| - |selected|
  {
    WithoutCard(available, Elems(selected));
    DistinctCard(selected);
    assert Elems(selected) * Elems(available) == Elems(selected);
  }
}
