/**
 * The record kept between runs: the help-desk selections of the last two runs
 * (oldest first) and, per person, the normalised labels of the tasks that person
 * was given in the last run that assigned any. Reading and writing the file is
 * not modelled; only the record and its update are.
 */
module History {
  import opened Collections
  import opened Text
  import opened Operations

  datatype HistoryRecord = HistoryRecord(lastSelections: seq<seq<string>>, lastOps: map<string, seq<string>>)

  /**
   * `(history + [selected])[-2:]`: a first-in first-out queue of depth two that
   * ends with the newest selection.
   */
  function KeepLastTwo(history: seq<seq<string>>, selected: seq<string>): (r: seq<seq<string>>)
    ensures |r| == if history == [] then 1 else 2
    ensures r[|r| - 1] == selected
    ensures history != [] ==> r[0] == history[|history| - 1]
  {
    var all := history + [selected];
    if |all| <= 2 then all else all[|all| - 2..]
  }

  /**
   * `get_excluded_people`: the people chosen for the help desk in both of the
   * first two recorded runs; nobody while fewer than two runs are recorded.
   */
  function ExcludedPeople(history: seq<seq<string>>): (excluded: set<string>)
    ensures forall p :: p in excluded <==> |history| >= 2 && p in history[0] && p in history[1]
  {
    if |history| < 2 then {} else Elems(history[0]) * Elems(history[1])
  }

  /** `{person: [label of t for t in tasks] for person, tasks in assignments.items()}` */
  function NormalisedOps(assignments: Assignments): (ops: map<string, seq<string>>)
    ensures ops.Keys == assignments.values.Keys
    ensures forall p | p in ops :: |ops[p]| == |assignments.values[p]|
    ensures forall p | p in ops :: forall i | 0 <= i < |ops[p]| :: Fold(ops[p][i]) == ops[p][i]
  {
    map p | p in assignments.values :: LabelsOf(assignments.values[p])
  }

  /**
   * `save_history(selected, history, assignments, prev_ops)` without the file
   * write: the new record. The selection queue gains `selected` and drops all
   * but the last two; when tasks were assigned, every assigned person's labels
   * replace the old map, otherwise the previous map is carried over unchanged.
   */
  method SaveHistory(selected: seq<string>, history: seq<seq<string>>, assignments: Assignments, prevOps: map<string, seq<string>>)
    returns (record: HistoryRecord)
    requires assignments.Valid()
    ensures record.lastSelections == KeepLastTwo(history, selected)
    ensures assignments.keys != [] ==> record.lastOps.Keys == Elems(assignments.keys)
    ensures assignments.keys != [] ==> forall p | p in record.lastOps ::
      |record.lastOps[p]| == |assignments.values[p]| &&
      forall i | 0 <= i < |record.lastOps[p]| :: record.lastOps[p][i] == Fold(ExtractTaskName(assignments.values[p][i]))
    ensures assignments.keys != [] ==> record.lastOps == NormalisedOps(assignments)
    ensures assignments.keys == [] ==> record.lastOps == prevOps
  {
    var newHistory := KeepLastTwo(history, selected);
    var ops: map<string, seq<string>>;
    if assignments.keys != [] {
      ops := map[];
      for i := 0 to |assignments.keys|
        invariant ops.Keys == Elems(assignments.keys[..i])
        invariant forall p | p in ops :: ops[p] == LabelsOf(assignments.values[p])
      {
        var person := assignments.keys[i];
        assert assignments.keys[..i + 1] == assignments.keys[..i] + [person];
        ops := ops[person := LabelsOf(assignments.values[person])];
      }
      assert assignments.keys[..|assignments.keys|] == assignments.keys;
    } else {
      ops := prevOps;
    }
    record := HistoryRecord(newHistory, ops);
  }

  /** After three saves only the last two selections remain, oldest first. */
  lemma ThreeSavesKeepTwo(history: seq<seq<string>>, a: seq<string>, b: seq<string>, c: seq<string>)
    ensures KeepLastTwo(KeepLastTwo(KeepLastTwo(history, a), b), c) == [b, c]
  {
    var h2 := KeepLastTwo(KeepLastTwo(history, a), b);
    assert h2[1] == b;
  }

  /**
   * The soft exclusion of the next run is exactly the people chosen in both the
   * newest recorded run and the run just saved.
   */
  lemma ExcludedAfterSave(history: seq<seq<string>>, selected: seq<string>)
    requires history != []
    ensures ExcludedPeople(KeepLastTwo(history, selected)) == Elems(history[|history| - 1]) * Elems(selected)
  {
    var h := KeepLastTwo(history, selected);
    assert h == [history[|history| - 1], selected];
  }

  /**
   * Whatever came before, a person chosen in two consecutive runs is soft-excluded
   * in the run after, and nobody else is.
   */
  lemma ExcludedAfterTwoRuns(history: seq<seq<string>>, a: seq<string>, b: seq<string>)
    ensures ExcludedPeople(KeepLastTwo(KeepLastTwo(history, a), b)) == Elems(a) * Elems(b)
  {
    ExcludedAfterSave(KeepLastTwo(history, a), b);
  }

  /**
   * The history closes the repeat-avoidance loop: a task saved for a person is
   * not fresh for that person in the next run, whatever the task list.
   */
  lemma SavedTaskNotFresh(assignments: Assignments, person: string, t: string, operations: seq<string>)
    requires person in assignments.values && t in assignments.values[person]
    ensures t !in Fresh(operations, PreviousLabels(NormalisedOps(assignments), person))
  {
    PreviousTaskNotFresh(operations, assignments.values[person], t);
  }
}
