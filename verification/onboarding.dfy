/**
 * Onboarding support: the onboarding type scheduled for a day
 * (`get_onboarding_config`) and the people chosen to support it
 * (`select_onboarding`). Only the day exclusions apply here; the help-desk
 * history does not.
 */
module Onboarding {
  import opened Collections
  import opened Random
  import opened Text

  datatype Option<T> = None | Some(value: T)

  /** `s.split(c, 1)[0]` for a string that contains `c`: the text before the first `c`. */
  function BeforeFirst(s: string, c: char): (r: string)
    requires c in s
    ensures |r| < |s| && r == s[..|r|] && s[|r|] == c
    ensures c !in r
  {
    if s[0] == c then []
    else
      assert c in s[1..];
      [s[0]] + BeforeFirst(s[1..], c)
  }

  /** `s.split(c, 1)[1]`: the text after the first `c`. */
  function AfterFirst(s: string, c: char): (r: string)
    requires c in s
    ensures s == BeforeFirst(s, c) + [c] + r
  {
    var b := BeforeFirst(s, c);
    assert s == s[..|b|] + [c] + s[|b| + 1..];
    s[|b| + 1..]
  }

  /** A schedule entry `Day:Type` whose day is `today`, compared after folding. */
  predicate Matches(entry: string, today: string)
    ensures Matches(entry, today) ==> ':' in Strip(entry)
  {
    var e := Strip(entry);
    ':' in e && Fold(Strip(BeforeFirst(e, ':'))) == today
  }

  /** The onboarding type of an entry: the stripped text after its first colon. */
  function TypeOf(entry: string): (t: string)
    requires ':' in Strip(entry)
    ensures Stripped(t)
  {
    Strip(AfterFirst(Strip(entry), ':'))
  }

  /** `Matches` for a fixed day, as a predicate on entries. */
  function MatchesDay(today: string): string -> bool {
    e => Matches(e, today)
  }

  /** The type of the first entry that matches `today`, if any. */
  function ScheduledType(entries: seq<string>, today: string): (r: Option<string>)
    ensures r.Some? ==> Stripped(r.value)
  {
    var i := FirstWhere(entries, MatchesDay(today));
    if i < |entries| then Some(TypeOf(entries[i])) else None
  }

  /** The first matching entry wins: its type is the scheduled type, whatever follows it. */
  lemma FirstMatchWins(entries: seq<string>, today: string, i: nat)
    requires i < |entries| && Matches(entries[i], today)
    requires forall j | 0 <= j < i :: !Matches(entries[j], today)
    ensures ScheduledType(entries, today) == Some(TypeOf(entries[i]))
  {
    FirstWhereUnique(entries, MatchesDay(today), i);
  }

  /** There is no scheduled type exactly when no entry matches. */
  lemma NoMatchNoType(entries: seq<string>, today: string)
    ensures ScheduledType(entries, today).None? <==> forall i | 0 <= i < |entries| :: !Matches(entries[i], today)
  {
    var p := MatchesDay(today);
    var i := FirstWhere(entries, p);
    if i < |entries| {
      assert p(entries[i]);
    } else {
      assert forall j | 0 <= j < |entries| :: !p(entries[j]);
    }
  }

  /**
   * `get_onboarding_config`, given the schedule text and the day name: the type
   * of the first comma-separated entry whose day equals today's name without
   * regard to case (entries without a colon never match), or nothing.
   */
  method OnboardingConfig(schedule: string, dayName: string) returns (r: Option<string>)
    ensures r == ScheduledType(Split(schedule, ','), Fold(dayName))
  {
    var today := Fold(dayName);
    var entries := Split(schedule, ',');
    ghost var first := FirstWhere(entries, MatchesDay(today));
    for i := 0 to |entries|
      invariant first >= i
    {
      var found := ParseEntry(entries[i], today);
      if found.Some? {
        assert MatchesDay(today)(entries[i]);
        return found;
      }
      assert first != i by {
        assert !MatchesDay(today)(entries[i]);
      }
    }
    return None;
  }

  /**
   * One pass of the loop of `get_onboarding_config`: strip the entry, split it
   * at its first colon, and compare the folded day with today.
   */
  method ParseEntry(rawEntry: string, today: string) returns (found: Option<string>)
    ensures found == if Matches(rawEntry, today) then Some(TypeOf(rawEntry)) else None
  {
    var entry := Strip(rawEntry);
    if ':' in entry {
      var day := BeforeFirst(entry, ':');
      var onbType := AfterFirst(entry, ':');
      if Fold(Strip(day)) == today {
        return Some(Strip(onbType));
      }
    }
    return None;
  }

  /** `[p for p in people if p.casefold() not in day_excluded_lower]` */
  function NotExcluded(people: seq<string>, dayExcludedLower: set<string>): (r: seq<string>)
    ensures forall p | p in r :: p in people && Fold(p) !in dayExcludedLower
    ensures forall p | p in people && Fold(p) !in dayExcludedLower :: p in r
    ensures multiset(r) <= multiset(people)
  {
    if people == [] then []
    else
      var rest := NotExcluded(people[1..], dayExcludedLower);
      assert people == [people[0]] + people[1..];
      if Fold(people[0]) in dayExcludedLower then rest else [people[0]] + rest
  }

  /**
   * `select_onboarding`: up to two people, from distinct positions of the roster,
   * none of them excluded today; nobody when everyone is excluded.
   */
  function SelectOnboarding(people: seq<string>, dayExcludedLower: set<string>, rng: Stream): (chosen: seq<string>)
    ensures var available := NotExcluded(people, dayExcludedLower);
      |chosen| == if |available| < 2 then |available| else 2
    ensures forall p | p in chosen :: p in people && Fold(p) !in dayExcludedLower
    ensures multiset(chosen) <= multiset(people)
    ensures Distinct(people) ==> Distinct(chosen)
    ensures chosen == [] <==> forall p | p in people :: Fold(p) in dayExcludedLower
  {
    var available := NotExcluded(people, dayExcludedLower);
    if |available| == 0 then
      []
    else
      var chosen := Sample(available, if |available| < 2 then |available| else 2, rng);
      assert available[0] in available;
      assert Distinct(people) ==> Distinct(chosen) by {
        if Distinct(people) {
          SubMultisetDistinct(chosen, people);
        }
      }
      chosen
  }

  /**
   * The onboarding step of a run: supporters are chosen only when the schedule
   * names a non-empty type for today; a missing or blank type gives nobody.
   */
  function OnboardingSupport(onboardingType: Option<string>, people: seq<string>, dayExcludedLower: set<string>,
                             rng: Stream): (chosen: seq<string>)
    ensures chosen != [] ==> onboardingType.Some? && onboardingType.value != []
    ensures forall p | p in chosen :: p in people && Fold(p) !in dayExcludedLower
    ensures onboardingType.Some? && onboardingType.value != [] ==>
      (chosen == [] <==> forall p | p in people :: Fold(p) in dayExcludedLower)
    ensures |chosen| <= 2
  {
    if onboardingType.Some? && onboardingType.value != [] then SelectOnboarding(people, dayExcludedLower, rng)
    else []
  }
}
