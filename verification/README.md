# Rotation bot: a verified model of the daily rotation

The bot posts a daily rotation to a chat channel. From a roster it picks up to
two people for the service desk. Everyone else who is available joins the
operations pool, and each pool member gets two operations tasks. Optionally, two
people are picked to support that day's onboarding class.

People are excluded in two ways:

- **Hard exclusion.** Whoever is named for today is out, case-insensitively.
- **Soft exclusion.** Whoever sat on the desk in both of the last two runs is
  skipped. This is undone when fewer than two people would be left.

Tasks are handed out to avoid repeats. A task whose normalised label the person
was given in the previous run counts as stale, and fresh tasks are preferred.
A small history record carries the last two desk selections and the previous
task labels from one run to the next.

The model covers the rotation logic of `bot.py` in eight modules:

| module | what it holds |
|---|---|
| `Collections` | repeat-free sequences, list filtering, first-match search, and Python's insertion-ordered dict (`OrderedMap`) |
| `Random` | `random.sample`, `random.choice` and `random.shuffle`, driven by an explicit stream of draws |
| `Text` | `strip`, `rstrip(c)`, `split`, `join`, `replace`, casefolding, `parse_env_list`, `extract_task_name` and the task label |
| `History` | the history record, `save_history`'s update of it, and `get_excluded_people` |
| `Operations` | `assign_operations` and the freshness rule |
| `Selection` | `run_selection`: the name lookup, the available, eligible and remaining keys, and the draws |
| `Onboarding` | `get_onboarding_config` for a given day name, and `select_onboarding` |
| `Message` | `format_message`, as a line list joined with newlines |

The code is imperative in four places, and the model keeps it so: the
assignment loop, the loop in `save_history`, the line-appending in
`format_message`, and the schedule loop with its early return. Each of these is
a `method` with a loop. Its postcondition ties the result to a specification
function, and lemmas prove that function's properties. The rest of the code is
comprehensions and expressions. The model writes it as functions, or as
loop-free methods where random draws are passed along or a method is called
(`run_selection`).

Randomness is a parameter. A stream of natural numbers stands for the library's
choices: a draw `d` choosing among `n` candidates takes the one at index `d % n`.
Every contract holds for every stream. Any outcome the library can produce is
reached by some stream by construction, because a draw below `n` picks the
candidate at exactly that index. `Random.ChoiceReaches` and
`Random.SampleReachesFirst` prove this for one choice and for the first element
of a sample. The model does not prove it for a whole sample.

## Model

| member | source | states |
|---|---|---|
| Text.ParseEnvList | bot.py:50-54 | every item is non-empty, has no whitespace at either end, and contains neither a comma nor a newline |
| Text.NewlineIsComma | bot.py:53 | a newline separates items exactly as a comma does: parsing the text with every newline turned into a comma gives the same list |
| Text.ParseEnvListPieces | bot.py:51-54 | text made of comma-separated pieces (holding no comma or newline) parses to those pieces stripped, blank ones dropped, in order |
| Text.ParseEnvListJoin | bot.py:50-54 | a list of such items, written comma-separated, parses back to exactly the same list in the same order |
| Text.JoinSplit | bot.py:53 | the pieces of `split` hold no separator, and joining them with it restores the input |
| Text.SplitJoin | bot.py:53 | splitting a join of separator-free pieces (at least one) gives the pieces back |
| Text.Replace | bot.py:53 | `replace` of one character turns each occurrence of it into the replacement and keeps every other character in place |
| Text.JoinChars | bot.py:53 | a join contains no character that is missing from every piece and differs from the separator |
| Text.JoinLacks | bot.py:53 | a character missing from a join is missing from every piece |
| Text.NonEmpty | bot.py:54 | the filter keeps exactly the non-empty items of the input, and keeps the list whole when no item is empty |
| Text.NonEmptyConcat | bot.py:54 | the filter keeps order: filtering a concatenation is concatenating the filtered parts |
| Text.StripAll | bot.py:53 | one entry per input item, in order, each the stripped item |
| Text.Split | bot.py:53 | `split` always gives at least one piece; JoinSplit and SplitJoin fix what the pieces are |
| Text.Join | bot.py:281 | bare definition of `sep.join`, without a contract of its own; JoinSplit, SplitJoin, JoinChars and JoinLacks state its properties |
| Text.IsSpace | bot.py:70-71 | the whitespace that `strip` removes; only ASCII characters count as whitespace |
| Text.LStrip | bot.py:70-71 | `lstrip` is a suffix of the input that does not start with whitespace |
| Text.LStripSpace | bot.py:70-71 | what `lstrip` removes is all whitespace |
| Text.RStrip | bot.py:70-71 | `rstrip` is a prefix of the input that does not end with whitespace |
| Text.RStripSpace | bot.py:70-71 | what `rstrip` removes is all whitespace |
| Text.Strip | bot.py:70-71 | the result of `strip` has no whitespace at either end and is no longer than the input |
| Text.StripPadded | bot.py:70-71 | the input is the stripped text with only whitespace before and after it |
| Text.StripStripped | bot.py:70-71 | stripping an already stripped string changes nothing |
| Text.StripKeeps | bot.py:70-71 | every character of the stripped text occurs in the input |
| Text.StripLacks | bot.py:70-71 | stripping never introduces a character |
| Text.RStripChar | bot.py:70 | `rstrip('>')` is a prefix of the input, the removed part is all `>`, and the result does not end with `>` |
| Text.AfterLast | bot.py:70 | the text after the last vertical bar is a bar-free suffix of the input, and a bar stands right before it whenever anything was cut |
| Text.LastEnd | bot.py:70 | the index just past the last vertical bar: no bar after it, and a bar right before it unless it is 0 |
| Text.FoldIdempotent | bot.py:106 | casefolding twice is casefolding once |
| Text.FoldChar | bot.py:106 | casefolding one character leaves no upper-case ASCII letter |
| Text.Fold | bot.py:106 | casefolding keeps the length |
| Text.FoldNoUpper | bot.py:106 | casefolded text holds no upper-case letter |
| Text.Label | bot.py:106 | a task's label (its display name, casefolded) is already in casefolded form |
| Text.IsLink | bot.py:69 | the hyperlink test: a task that passes it starts with `<` and holds a vertical bar |
| Text.ExtractTaskName | bot.py:67-71 | the label is stripped. For a hyperlink task (starting with `<` and holding a vertical bar) it has no bar and is the text after the last bar, with the whole trailing `>` run and the surrounding whitespace removed. Otherwise it is the stripped task |
| Text.LinkLabel | bot.py:69-70 | for bar-free text after the last vertical bar, the stripped text before the whole trailing `>` run has no bar and sits between whitespace and that run |
| Text.LinkLabelUnique | bot.py:69-70 | the link label is determined: any stripped name placed that way in the text after the last bar is the label returned |
| Text.RStripCharAt | bot.py:70 | a prefix followed only by `>`, and not itself ending in `>`, is what `rstrip('>')` leaves |
| Text.PaddedUnique | bot.py:70-71 | two stripped strings that pad out to the same text with whitespace are equal, so `strip` has one possible result |
| History.KeepLastTwo | bot.py:102 | the new selection list ends with the new selection, keeps the newest earlier one before it, and holds at most two |
| History.ThreeSavesKeepTwo | bot.py:102 | after three saves exactly the last two selections remain, oldest first |
| History.ExcludedPeople | bot.py:115-119 | a person is excluded exactly when at least two runs are recorded and the person is in both the first and the second |
| History.ExcludedAfterSave | bot.py:100-119 | after a save, the excluded people are those of the previous newest run who were selected again |
| History.ExcludedAfterTwoRuns | bot.py:100-119 | after two saves, the excluded people are exactly those selected in both |
| History.NormalisedOps | bot.py:103-106 | the label map has exactly the assigned people, one casefolded label per task of theirs |
| History.SaveHistory | bot.py:100-112 | the record keeps the last two selections. When tasks were assigned, its task map has exactly the assigned people, each mapped to the labels of their tasks in order. Otherwise the previous task map carries over unchanged |
| History.SavedTaskNotFresh | bot.py:106 | a task saved for a person is not fresh for that person in the next run |
| Operations.PreviousLabels | bot.py:195 | the previous labels are those recorded for the person, or none for a person without a record |
| Operations.LabelsOf | bot.py:106 | one label per task, each in casefolded form |
| Operations.IsPick | bot.py:187-207 | bare definition of the rule a pair must obey, without a contract of its own; PickFor, PickMaximisesFresh, PickTwoDifferent and the three branch lemmas state its properties |
| Operations.Fresh | bot.py:196 | the fresh tasks are exactly the configured tasks whose label was not assigned last time, drawn from distinct positions |
| Operations.PickMaximisesFresh | bot.py:196-207 | a pick holds as many fresh tasks as possible: two when at least two exist, else all of them |
| Operations.OtherTaskExists | bot.py:200-202 | with exactly one fresh task among two or more, the candidates for the second task are never empty |
| Operations.OneFreshHead | bot.py:196-202 | with at most one fresh task, one of the first two configured tasks is stale |
| Operations.OneFreshCount | bot.py:200-204 | with one fresh task, every other configured task is stale |
| Operations.FreshCountPair | bot.py:196-207 | a pair's fresh count is the number of its two tasks that are fresh |
| Operations.PickTwoDifferent | bot.py:196-207 | when the configured tasks are all different, nobody gets the same task twice |
| Operations.PreviousTaskNotFresh | bot.py:195-196 | a task assigned in the previous run is not fresh |
| Operations.SameForAll | bot.py:187-188 | the single-task map has exactly the given people as keys (in order when none repeats), each with the same pair |
| Operations.SingleTaskIsPick | bot.py:187-188 | with one configured task, everyone gets it twice and that is a valid pick |
| Operations.PutKeepsPicks | bot.py:209 | recording a valid pick for a person keeps every recorded pick valid |
| Operations.PutInOrder | bot.py:209 | adding people one by one gives a map keyed by those people, in order |
| Operations.SampleFreshIsPick | bot.py:198-199 | two fresh tasks from distinct positions are a valid pick |
| Operations.GuaranteedFreshIsPick | bot.py:200-204 | the one fresh task plus a different task, in either order, is a valid pick |
| Operations.SampleAllIsPick | bot.py:205-207 | with no fresh task, two tasks from distinct positions of the full list are a valid pick |
| Operations.PickFor | bot.py:195-207 | one person's pair obeys the freshness rule for that person's previous labels |
| Operations.AssignOperations | bot.py:181-211 | no pool gives an empty map; a pool without tasks is an error; otherwise the map is keyed by exactly the pool (in order when none repeats), with a valid pair for each person |
| Selection.NameLookup | bot.py:226 | every roster name's folded form is a key, and each key maps to a roster name that folds to it |
| Selection.LastSpellingWins | bot.py:226 | when two roster names fold alike, the later spelling is kept |
| Selection.AvailableKeys | bot.py:230 | the available keys have no repeats, are keys of the lookup, are not day-excluded, and include every roster name that is not day-excluded |
| Selection.FoldSet | bot.py:227 | the folded set holds exactly the casefolded names |
| Selection.HelpdeskPool | bot.py:233-237 | the eligible keys are the available keys not history-excluded when at least two of those remain, and all available keys otherwise; no repeats |
| Selection.Names | bot.py:243 | each key maps back to a roster name that folds to it; distinct keys give distinct names |
| Selection.FoldedNames | bot.py:243 | folding the looked-up names gives back the keys |
| Selection.PickHelpdesk | bot.py:233-243 | the help desk gets `min(2, available)` distinct available keys, none history-excluded while at least two available keys are not |
| Selection.SelectedFromPool | bot.py:240-242 | the first `min(2, eligible)` shuffled eligible keys are distinct, are available, and number `min(2, available)` |
| Selection.PickPool | bot.py:246-250 | the pool is the available keys minus the desk, or two of them on a reduced day with more than two left |
| Selection.RemainingCount | bot.py:246 | removing the desk from the available keys removes exactly the desk's size |
| Selection.HelpdeskNames | bot.py:239-243 | the desk's names obey the help-desk rule |
| Selection.PoolNames | bot.py:246-252 | the pool's names obey the pool rule, and the pool is non-empty exactly when more than two people are available |
| Selection.NamesAvailable | bot.py:243 | names looked up from available keys are roster names that are available and not day-excluded |
| Selection.RunSelection | bot.py:214-254 | the desk has `min(2, available)` distinct roster names, none day-excluded, none history-excluded while two others are eligible. The pool is disjoint from the desk and not day-excluded: all the remaining available people, or two of them on a reduced day with more than two left. Every pool member has a valid pair, and the run fails exactly when there are no tasks and more than two people are available |
| Onboarding.BeforeFirst | bot.py:150 | the day part is the colon-free text before the first colon |
| Onboarding.AfterFirst | bot.py:150 | the day part, the colon and the type part make up the entry |
| Onboarding.Matches | bot.py:148-151 | an entry matches only when it holds a colon once stripped |
| Onboarding.TypeOf | bot.py:150-152 | the onboarding type of an entry is stripped |
| Onboarding.ScheduledType | bot.py:147-153 | a scheduled type is stripped; FirstMatchWins and NoMatchNoType fix which one it is |
| Onboarding.ParseEntry | bot.py:148-152 | an entry gives its stripped type exactly when it has a colon and its stripped, casefolded day is today |
| Onboarding.FirstMatchWins | bot.py:147-153 | the first matching entry decides the type, whatever entries follow it |
| Onboarding.NoMatchNoType | bot.py:147-153 | there is no onboarding today exactly when no entry matches |
| Onboarding.OnboardingConfig | bot.py:138-153 | the loop returns the type of the first entry whose day matches today case-insensitively, or nothing |
| Onboarding.OnboardingSupport | bot.py:342-346 | supporters are chosen only when today's type is present and non-empty. Then they are not day-excluded, at most two, and nobody exactly when everyone is excluded; otherwise nobody |
| Onboarding.NotExcluded | bot.py:165 | the available people are exactly the roster entries not day-excluded, from distinct positions |
| Onboarding.SelectOnboarding | bot.py:156-170 | `min(2, available)` people from distinct roster positions, none day-excluded; nobody exactly when everyone is excluded |
| Collections.Without | bot.py:230-233 | the filter keeps exactly the elements outside the excluded set, without adding repeats |
| Collections.WithoutCard | bot.py:246 | filtering a repeat-free list removes exactly the excluded elements it holds |
| Collections.FirstWhere | bot.py:147-153 | the first position that satisfies the test, with none before it, or the length when there is none |
| Collections.FirstWhereUnique | bot.py:147-153 | a satisfying position with none before it is the first one |
| Collections.OrderedMap.Put | bot.py:209 | assigning a key updates its value, and appends the key to the order only when it is new |
| Collections.EmptyMap | bot.py:191 | the empty dict has no keys |
| Random.Sample | bot.py:241 | `random.sample` returns `k` elements from distinct positions of the pool, all of them when `k` is the pool size, with no repeats when the pool has none |
| Random.Choice | bot.py:202 | `random.choice` returns an element of the list |
| Random.ChoiceReaches | bot.py:202 | the draw `j` picks the element at `j`, so every element can be chosen |
| Random.SampleReachesFirst | bot.py:199 | a first draw `j` makes the element at `j` the first one sampled |
| Random.ShufflePair | bot.py:203-204 | shuffling a pair gives the pair or its swap |
| Random.SampleSingle | bot.py:199 | sampling one element of a singleton gives that element |
| Message.PersonLines | bot.py:260 | one indented line per person, in order |
| Message.OperationLines | bot.py:267-270 | three lines per assigned person |
| Message.OperationLinesAt | bot.py:267-270 | the `i`-th person's block is the indented name, then a bullet for each of the two tasks |
| Message.AppendOperations | bot.py:266-273 | the loop appends exactly the operations section |
| Message.AppendOnboarding | bot.py:274-279 | the loop appends exactly the onboarding section |
| Message.DeskSection | bot.py:259-262 | bare definition of the desk lines, without a contract of its own; DeskInPlace states where they appear |
| Message.OperationBlock | bot.py:268-270 | bare definition of one person's block, without a contract of its own; OperationLinesAt states its three lines |
| Message.OperationsSection | bot.py:266-272 | bare definition of the operations lines, without a contract of its own; OperationsInPlace and LineCount state its layout |
| Message.OnboardingSection | bot.py:274-279 | bare definition of the onboarding lines, without a contract of its own; OnboardingSectionIffPeople and LineCount state when and how they appear |
| Message.OnboardingHeader | bot.py:276 | the onboarding heading starts with its emoji, so it is never an indented line |
| Message.MessageLines | bot.py:258-279 | bare definition of the line list, without a contract of its own; LineCount, DeskInPlace, OperationsInPlace and OnboardingSectionIffPeople fix its layout |
| Message.FormatMessage | bot.py:257-281 | the message is the rotation's lines joined with newlines |
| Message.LineCount | bot.py:257-281 | the line count is each section's fixed lines plus one per desk or onboarding person and three per assigned person |
| Message.DeskInPlace | bot.py:258-262 | the message opens with the service-desk heading, then one indented line per desk person, or `(none)` |
| Message.OperationsInPlace | bot.py:263-270 | after the operations heading, each assigned person's name and two tasks appear in insertion order at fixed offsets |
| Message.OnboardingSectionIffPeople | bot.py:274-279 | the onboarding heading appears exactly when someone supports onboarding |
| Message.MessageSplitsIntoLines | bot.py:281 | when no name, task or type contains a newline, splitting the message at newlines gives back its lines |

## Left out

- Reading and writing the history file, its JSON encoding and `load_history`: file I/O. Only the record and its update are modelled.
- `send_to_slack`: a network call.
- Environment and configuration reads (`os.environ`, `get_config_list`, `env_truthy`, `get_day_exclusions`): their values are parameters. These are the day name, the folded day exclusions, the schedule text, the reduced-day flag and the task list.
- `get_day_name`, `SIMULATE_DAY`, `should_run_now` and time zones: the clock is not modelled. The day name is given.
- `main` (wiring, logging, catching `ValueError`/`OSError`): logging has no effect on results. Of its own logic, only the onboarding guard (bot.py:344) is modelled, as `Onboarding.OnboardingSupport`. The run as a whole, with its order of steps, is not modelled.
- `main`'s early return on an empty roster (bot.py:311-313): no message is sent and no history is saved. The modelled operations accept an empty roster and give an empty rotation.
- `main`'s early return on a configuration error (bot.py:337-339): no message is sent and no history is saved. The model returns the error from `Selection.RunSelection` and stops there.
- `assign_operations`' replacement of a non-dict `last_ops` by `{}`: the model types `last_ops` as a map, so a value of another type cannot arise.
- The `None` defaults of optional arguments (`history_excluded`, `day_excluded_lower`, `last_ops`, `prev_ops`, `onboarding_people`): these are passed as empty collections.
- Text.Fold: casefolds only ASCII letters. Unicode case folding, including characters whose folding changes the length, is not modelled.
- Text.IsSpace: treats only the ASCII whitespace characters as whitespace. The other Unicode whitespace that `str.isspace` also accepts is not modelled.
- Random.Sample: fixes which draws give which outcome (`d % n` per position) rather than the library's algorithm. The contracts hold for every stream, so every possible outcome is covered, but the probabilities are not modelled.
- Message.FormatMessage: requires every assigned person to have at least two tasks. The source would raise `IndexError` otherwise, and `assign_operations` always assigns two.
- Message.OnboardingHeader: a missing onboarding type is written as `None`, as Python's f-string writes it. The model does not decide whether that output is wanted.
