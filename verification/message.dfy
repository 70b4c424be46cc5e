/**
 * `format_message`: the Slack text of the day's rotation. The message is a list
 * of lines joined with newlines: the service-desk section, the operations
 * section and, when anyone supports onboarding, the onboarding section.
 */
module Message {
  import opened Text
  import opened Operations
  import opened Onboarding

  const ServiceDeskHeader: string := "\U{1F5A5}\U{FE0F} *Service Desk*"
  const OperationsHeader: string := "\U{2699}\U{FE0F} *Operations*"
  const Indent: string := "    "
  const Bullet: string := "        \U{2022} "
  const NoneLine: string := "    (none)"
  const ClassNote: string := "\U{2139}\U{FE0F} _Class \U{2264}8: " + "1 support needed | " + "Class 9+: " + "2 support needed_"

  /** The onboarding heading; a missing type is written as Python writes `None`. */
  function OnboardingHeader(onboardingType: Option<string>): (h: string)
    ensures |h| > 0 && h[0] == '\U{1F44B}'
  {
    "\U{1F44B} *Onboarding Support (" + (if onboardingType.Some? then onboardingType.value else "None") + "):*"
  }

  /** One indented line per person, in order. */
  function PersonLines(people: seq<string>): (lines: seq<string>)
    ensures |lines| == |people|
    ensures forall i | 0 <= i < |people| :: lines[i] == Indent + people[i]
  {
    seq(|people|, i requires 0 <= i < |people| => Indent + people[i])
  }

  /** Every assigned person has the two tasks the message lists. */
  predicate HasTwoTasks(assignments: Assignments) {
    forall p | p in assignments.keys :: p in assignments.values && |assignments.values[p]| >= 2
  }

  /** The three lines of one person's operations: the name, then a bullet per task. */
  function OperationBlock(person: string, tasks: seq<string>): seq<string>
    requires |tasks| >= 2
  {
    [Indent + person, Bullet + tasks[0], Bullet + tasks[1]]
  }

  /** The operations lines of the given people, in order. */
  function OperationLines(keys: seq<string>, values: map<string, seq<string>>): (lines: seq<string>)
    requires forall p | p in keys :: p in values && |values[p]| >= 2
    ensures |lines| == 3 * |keys|
  {
    if keys == [] then []
    else
      var last := keys[|keys| - 1];
      OperationLines(keys[..|keys| - 1], values) + OperationBlock(last, values[last])
  }

  /** The service-desk names, or a placeholder when nobody was selected. */
  function DeskSection(selected: seq<string>): seq<string> {
    if selected == [] then [NoneLine] else PersonLines(selected)
  }

  /** The operations blocks in assignment order, or a placeholder when nobody has tasks. */
  function OperationsSection(assignments: Assignments): seq<string>
    requires HasTwoTasks(assignments)
  {
    if assignments.keys == [] then [NoneLine] else OperationLines(assignments.keys, assignments.values)
  }

  /** The onboarding section, present only when someone supports onboarding. */
  function OnboardingSection(onboardingPeople: seq<string>, onboardingType: Option<string>): seq<string> {
    if onboardingPeople == [] then []
    else ["", OnboardingHeader(onboardingType)] + PersonLines(onboardingPeople) + [ClassNote]
  }

  /** The lines of the message, before joining. */
  function MessageLines(selected: seq<string>, assignments: Assignments, onboardingPeople: seq<string>,
                        onboardingType: Option<string>): seq<string>
    requires HasTwoTasks(assignments)
  {
    [ServiceDeskHeader] + DeskSection(selected) + ["", OperationsHeader]
    + OperationsSection(assignments) + OnboardingSection(onboardingPeople, onboardingType)
  }

  /**
   * `format_message`: the lines are gathered section by section and joined with
   * newlines. The source indexes the first two tasks of every person, so every
   * person must have two.
   */
  method FormatMessage(selected: seq<string>, assignments: Assignments, onboardingPeople: seq<string>,
                       onboardingType: Option<string>) returns (text: string)
    requires HasTwoTasks(assignments)
    ensures text == Join(MessageLines(selected, assignments, onboardingPeople, onboardingType), '\n')
  {
    var lines := [ServiceDeskHeader];
    if selected != [] {
      lines := lines + PersonLines(selected);
    } else {
      lines := lines + [NoneLine];
    }
    assert lines == [ServiceDeskHeader] + DeskSection(selected);
    lines := lines + [""];
    lines := lines + [OperationsHeader];
    assert lines == [ServiceDeskHeader] + DeskSection(selected) + ["", OperationsHeader];
    lines := AppendOperations(lines, assignments);
    lines := AppendOnboarding(lines, onboardingPeople, onboardingType);
    text := Join(lines, '\n');
  }

  /** The operations part of `format_message`: each person's name and two task bullets. */
  method AppendOperations(head: seq<string>, assignments: Assignments) returns (lines: seq<string>)
    requires HasTwoTasks(assignments)
    ensures lines == head + OperationsSection(assignments)
  {
    lines := head;
    if assignments.keys != [] {
      for i := 0 to |assignments.keys|
        invariant lines == head + OperationLines(assignments.keys[..i], assignments.values)
      {
        var person := assignments.keys[i];
        var tasks := assignments.values[person];
        assert assignments.keys[..i + 1][..i] == assignments.keys[..i];
        lines := lines + [Indent + person];
        lines := lines + [Bullet + tasks[0]];
        lines := lines + [Bullet + tasks[1]];
      }
      assert assignments.keys[..|assignments.keys|] == assignments.keys;
    } else {
      lines := lines + [NoneLine];
    }
  }

  /** The onboarding part of `format_message`, added only when someone supports onboarding. */
  method AppendOnboarding(head: seq<string>, onboardingPeople: seq<string>, onboardingType: Option<string>)
    returns (lines: seq<string>)
    ensures lines == head + OnboardingSection(onboardingPeople, onboardingType)
  {
    lines := head;
    if onboardingPeople != [] {
      var header := OnboardingHeader(onboardingType);
      lines := lines + [""];
      lines := lines + [header];
      var body := lines;
      for i := 0 to |onboardingPeople|
        invariant lines == body + PersonLines(onboardingPeople[..i])
      {
        PersonLinesExtend(onboardingPeople, i);
        lines := lines + [Indent + onboardingPeople[i]];
      }
      assert onboardingPeople[..|onboardingPeople|] == onboardingPeople;
      lines := lines + [ClassNote];
      Regroup(head, "", header, PersonLines(onboardingPeople), ClassNote);
    }
  }

  lemma Regroup(head: seq<string>, a: string, b: string, middle: seq<string>, z: string)
    ensures head + [a] + [b] + middle + [z] == head + ([a, b] + middle + [z])
  {
  }

  /** One more person adds one more line. */
  lemma PersonLinesExtend(people: seq<string>, i: int)
    requires 0 <= i < |people|
    ensures PersonLines(people[..i + 1]) == PersonLines(people[..i]) + [Indent + people[i]]
  {
    assert people[..i + 1][..i] == people[..i];
  }

  /** Line `3 * i` names the `i`-th assigned person, the next two lines their tasks. */
  lemma {:induction false} OperationLinesAt(keys: seq<string>, values: map<string, seq<string>>, i: int)
    requires forall p | p in keys :: p in values && |values[p]| >= 2
    requires 0 <= i < |keys|
    ensures OperationLines(keys, values)[3 * i] == Indent + keys[i]
    ensures OperationLines(keys, values)[3 * i + 1] == Bullet + values[keys[i]][0]
    ensures OperationLines(keys, values)[3 * i + 2] == Bullet + values[keys[i]][1]
    decreases |keys|
  {
    var init := keys[..|keys| - 1];
    if i < |keys| - 1 {
      OperationLinesAt(init, values, i);
      assert init[i] == keys[i];
    }
  }

  /** The number of lines: each section's fixed lines plus one per entry (three per assigned person). */
  lemma LineCount(selected: seq<string>, assignments: Assignments, onboardingPeople: seq<string>,
                  onboardingType: Option<string>)
    requires HasTwoTasks(assignments)
    ensures |MessageLines(selected, assignments, onboardingPeople, onboardingType)| ==
      3 + (if selected == [] then 1 else |selected|)
      + (if assignments.keys == [] then 1 else 3 * |assignments.keys|)
      + (if onboardingPeople == [] then 0 else 3 + |onboardingPeople|)
  {
  }

  /** The message opens with the service-desk heading and then one line per help-desk person, or a placeholder. */
  lemma DeskInPlace(selected: seq<string>, assignments: Assignments, onboardingPeople: seq<string>,
                    onboardingType: Option<string>)
    requires HasTwoTasks(assignments)
    ensures var lines := MessageLines(selected, assignments, onboardingPeople, onboardingType);
      && lines[0] == ServiceDeskHeader
      && (selected == [] ==> lines[1] == NoneLine)
      && (forall j | 0 <= j < |selected| :: lines[1 + j] == Indent + selected[j])
  {
    var head := [ServiceDeskHeader] + DeskSection(selected);
    var tail := ["", OperationsHeader];
    var ops := OperationsSection(assignments);
    var rest := OnboardingSection(onboardingPeople, onboardingType);
    forall k | 0 <= k < |head| ensures MessageLines(selected, assignments, onboardingPeople, onboardingType)[k] == head[k] {
      IndexPrefix(head, tail, ops, rest, k);
    }
  }

  /**
   * The `i`-th assigned person's block starts right after the operations
   * heading plus three lines per earlier person: the name, then the two tasks.
   */
  lemma OperationsInPlace(selected: seq<string>, assignments: Assignments, onboardingPeople: seq<string>,
                          onboardingType: Option<string>, i: int)
    requires HasTwoTasks(assignments)
    requires 0 <= i < |assignments.keys|
    ensures var lines := MessageLines(selected, assignments, onboardingPeople, onboardingType);
      var start := 3 + (if selected == [] then 1 else |selected|);
      && lines[start - 1] == OperationsHeader
      && lines[start + 3 * i] == Indent + assignments.keys[i]
      && lines[start + 3 * i + 1] == Bullet + assignments.values[assignments.keys[i]][0]
      && lines[start + 3 * i + 2] == Bullet + assignments.values[assignments.keys[i]][1]
  {
    var prefix := [ServiceDeskHeader] + DeskSection(selected) + ["", OperationsHeader];
    var ops := OperationLines(assignments.keys, assignments.values);
    var rest := OnboardingSection(onboardingPeople, onboardingType);
    assert |prefix| == 3 + (if selected == [] then 1 else |selected|);
    assert (prefix + ops + rest)[|prefix| - 1] == OperationsHeader;
    OperationLinesAt(assignments.keys, assignments.values, i);
    IndexConcat(prefix, ops, rest, 3 * i);
    IndexConcat(prefix, ops, rest, 3 * i + 1);
    IndexConcat(prefix, ops, rest, 3 * i + 2);
  }

  lemma IndexConcat(a: seq<string>, b: seq<string>, c: seq<string>, k: int)
    requires 0 <= k < |b|
    ensures (a + b + c)[|a| + k] == b[k]
  {
  }

  lemma IndexPrefix(a: seq<string>, b: seq<string>, c: seq<string>, d: seq<string>, k: int)
    requires 0 <= k < |a|
    ensures (a + b + c + d)[k] == a[k]
  {
  }

  /** The onboarding heading is in the message exactly when someone supports onboarding. */
  lemma OnboardingSectionIffPeople(selected: seq<string>, assignments: Assignments, onboardingPeople: seq<string>,
                                   onboardingType: Option<string>)
    requires HasTwoTasks(assignments)
    ensures OnboardingHeader(onboardingType) in MessageLines(selected, assignments, onboardingPeople, onboardingType)
      <==> onboardingPeople != []
  {
    var header := OnboardingHeader(onboardingType);
    var desk := DeskSection(selected);
    var ops := OperationsSection(assignments);
    var prefix := [ServiceDeskHeader] + desk + ["", OperationsHeader] + ops;
    PersonLinesIndented(selected);
    OperationLinesIndented(assignments.keys, assignments.values);
    assert header[0] == '\U{1F44B}';
    forall l | l in prefix ensures l != header {
      if l in desk || l in ops {
        assert Indented(l);
      }
    }
  }

  /** A line that starts with a space: a name or a task under a heading. */
  predicate Indented(l: string) {
    |l| > 0 && l[0] == ' '
  }

  lemma PersonLinesIndented(people: seq<string>)
    ensures forall l | l in PersonLines(people) :: Indented(l)
  {
  }

  lemma {:induction false} OperationLinesIndented(keys: seq<string>, values: map<string, seq<string>>)
    requires forall p | p in keys :: p in values && |values[p]| >= 2
    ensures forall l | l in OperationLines(keys, values) :: Indented(l)
    decreases |keys|
  {
    if keys != [] {
      OperationLinesIndented(keys[..|keys| - 1], values);
    }
  }

  /** No line of the message breaks: a line-free input gives line-free lines. */
  predicate SingleLine(s: string) {
    '\n' !in s
  }

  /**
   * The message splits back into its lines at the newlines, as long as no name,
   * task or onboarding type contains a newline.
   */
  lemma MessageSplitsIntoLines(selected: seq<string>, assignments: Assignments, onboardingPeople: seq<string>,
                               onboardingType: Option<string>)
    requires HasTwoTasks(assignments)
    requires forall p | p in selected :: SingleLine(p)
    requires forall p | p in assignments.keys :: SingleLine(p) && SingleLine(assignments.values[p][0]) && SingleLine(assignments.values[p][1])
    requires forall p | p in onboardingPeople :: SingleLine(p)
    requires onboardingType.Some? ==> SingleLine(onboardingType.value)
    ensures var lines := MessageLines(selected, assignments, onboardingPeople, onboardingType);
      Split(Join(lines, '\n'), '\n') == lines
  {
    var lines := MessageLines(selected, assignments, onboardingPeople, onboardingType);
    forall l | l in lines ensures SingleLine(l) {
      LinesSingle(selected, assignments, onboardingPeople, onboardingType, l);
    }
    SplitJoin(lines, '\n');
  }

  lemma LinesSingle(selected: seq<string>, assignments: Assignments, onboardingPeople: seq<string>,
                    onboardingType: Option<string>, l: string)
    requires HasTwoTasks(assignments)
    requires forall p | p in selected :: SingleLine(p)
    requires forall p | p in assignments.keys :: SingleLine(p) && SingleLine(assignments.values[p][0]) && SingleLine(assignments.values[p][1])
    requires forall p | p in onboardingPeople :: SingleLine(p)
    requires onboardingType.Some? ==> SingleLine(onboardingType.value)
    requires l in MessageLines(selected, assignments, onboardingPeople, onboardingType)
    ensures SingleLine(l)
  {
    ConstantsSingle(onboardingType);
    PersonLinesSingle(selected);
    PersonLinesSingle(onboardingPeople);
    OperationLinesSingle(assignments.keys, assignments.values);
    var desk := DeskSection(selected);
    var ops := OperationsSection(assignments);
    var onboarding := OnboardingSection(onboardingPeople, onboardingType);
    assert MessageLines(selected, assignments, onboardingPeople, onboardingType)
      == [ServiceDeskHeader] + desk + ["", OperationsHeader] + ops + onboarding;
    assert l in desk ==> SingleLine(l);
    assert l in ops ==> SingleLine(l);
    assert l in onboarding ==> SingleLine(l);
  }

  /** The fixed text of the message has no newline, and neither has a one-line onboarding type's heading. */
  lemma ConstantsSingle(onboardingType: Option<string>)
    requires onboardingType.Some? ==> SingleLine(onboardingType.value)
    ensures SingleLine(ServiceDeskHeader) && SingleLine(OperationsHeader) && SingleLine(NoneLine) && SingleLine("")
    ensures SingleLine(ClassNote) && SingleLine(OnboardingHeader(onboardingType))
  {
    HeadersSingle();
    ClassNoteSingle();
    var name := if onboardingType.Some? then onboardingType.value else "None";
    OnboardingPrefixSingle();
    SingleLineConcat("\U{1F44B} *Onboarding Support (", name);
    SingleLineConcat("\U{1F44B} *Onboarding Support (" + name, "):*");
  }

  lemma HeadersSingle()
    ensures SingleLine(ServiceDeskHeader) && SingleLine(OperationsHeader) && SingleLine(NoneLine)
  {
  }

  lemma ClassNoteSingle()
    ensures SingleLine(ClassNote)
  {
    var a, b, c, d := "\U{2139}\U{FE0F} _Class \U{2264}8: ", "1 support needed | ", "Class 9+: ", "2 support needed_";
    assert SingleLine(a);
    assert SingleLine(b);
    assert SingleLine(c);
    assert SingleLine(d);
    SingleLineConcat(a, b);
    SingleLineConcat(a + b, c);
    SingleLineConcat(a + b + c, d);
  }

  lemma OnboardingPrefixSingle()
    ensures SingleLine("\U{1F44B} *Onboarding Support (") && SingleLine("):*")
  {
  }

  lemma SingleLineConcat(a: string, b: string)
    requires SingleLine(a) && SingleLine(b)
    ensures SingleLine(a + b)
  {
  }

  lemma PersonLinesSingle(people: seq<string>)
    requires forall p | p in people :: SingleLine(p)
    ensures forall l | l in PersonLines(people) :: SingleLine(l)
  {
    forall l | l in PersonLines(people) ensures SingleLine(l) {
      var i :| 0 <= i < |people| && PersonLines(people)[i] == l;
      assert people[i] in people;
    }
  }

  lemma {:induction false} OperationLinesSingle(keys: seq<string>, values: map<string, seq<string>>)
    requires forall p | p in keys :: p in values && |values[p]| >= 2
    requires forall p | p in keys :: SingleLine(p) && SingleLine(values[p][0]) && SingleLine(values[p][1])
    ensures forall l | l in OperationLines(keys, values) :: SingleLine(l)
    decreases |keys|
  {
    if keys != [] {
      var last := keys[|keys| - 1];
      OperationLinesSingle(keys[..|keys| - 1], values);
      assert last in keys;
    }
  }
}
