# Label repair in the English ingredient parser

This project models the part of the English ingredient-sentence parser
(`ingredient_parser/en/parser.py`) that sits between the CRF tagger and the
post-processor. It covers three pieces of logic:

- **Lazy model loading.** There is one process-wide tagger. `load_model_if_not_loaded`
  probes it with `info()`, which raises `RuntimeError` while no model is open.
  The model file is opened only when that probe fails.
- **Plural restoration.** The preprocessor singularised some tokens before tagging.
  Each of those tokens is pluralised again, in place, unless the tagger labelled it `UNIT`.
- **Name recovery.** This runs when the tagger labelled no token `NAME`.
  `guess_ingredient_name` keeps the positions whose `NAME` confidence is at least 0.2 and
  groups them into runs of consecutive indices. It sorts the runs by length and takes
  element 0. Every position of that run is relabelled `NAME` and gets its `NAME`
  confidence as its score, in place.

Modules, one per concern:

- `Types` (types.dfy): the `NAME` and `UNIT` labels, `HasName`, and `Option`.
- `Grouping` (grouping.dfy): `group_consecutive_idx`. The helper itself is not part of this
  model; it is given an explicit specification here and proved against it. The groups are
  non-empty runs of consecutive integers. They concatenate back to the input, and each one
  is maximal.
- `NameRecovery` (name_recovery.dfy): the candidate list, the stable sort by length, the
  chosen run and its characterisation, and `GuessIngredientName`. That method works in
  place on the label and score arrays and is proved equal to the specification function
  `GuessName`.
- `Plurals` (plurals.dfy): the re-pluralising loop as a method on the token array.
  It is proved equal to `Repluralised`, a left fold over the list of singularised indices.
- `Parser` (parser.dfy): the tagger as a class with a `loaded` flag and a ghost count of
  opens, `LoadModelIfNotLoaded`, and the pipeline `ParseIngredient`. `ParseIngredient`
  covers `parse_ingredient_en` and `inspect_parser_en`, whose steps are the same up to
  the post-processor.

The tagger's output is an input to the model: the labels, the score of each assigned label,
and each position's `NAME` confidence (`TAGGER.marginal("NAME", i)`). `pluralise_units`
is also an input, as an uninterpreted function parameter. Scores are `real`s. The only
thing done with them is the `>= 0.2` comparison, and the copying of a `NAME` confidence
into the score list.

**The selection rule: shortest, not longest.** The comments at parser.py:196 and 199 say
the longest group is taken. The code is `sorted(groups, key=len)[0]`. Python's `sorted` is
ascending and stable, so this is the *shortest* group, and among groups of equal length the
earliest. The model reproduces the code.

- `ChosenRunIsShortest` proves the chosen run is no longer than any maximal run, and
  starts no later than any maximal run of the same length.
- `ChosenRunNotLongest` exhibits confidences `0.5, 0.5, 0.0, 0.5`. For these, the lone
  position 3 is chosen over the longer run at positions 0 and 1.

Two further points where the model keeps to what the code does:

- `guess_ingredient_name` updates the caller's label and score lists in place and then
  returns them, and the plural loop writes into the token list. `GuessIngredientName` and
  `RestorePlurals` therefore modify arrays rather than return new sequences.
- A restored token is `pluralise_units(token)`, not the text the sentence originally held.
  The model states exactly that and makes no claim about the original text.

## Model

| member | source | states |
|---|---|---|
| Grouping.GroupConsecutive | ingredient_parser/en/parser.py:196-197 | for a strictly ascending candidate list the groups are non-empty, each counts up by one, each ends at least two below the start of the next, the first starts at the first candidate, and there are no groups exactly when there are no candidates |
| Grouping.GroupsPartition | ingredient_parser/en/parser.py:197 | concatenating the groups in order gives back the candidate list, so they partition it |
| Grouping.GroupMemberIn | ingredient_parser/en/parser.py:197 | every element of every group is a candidate |
| Grouping.GroupWithin | ingredient_parser/en/parser.py:197 | all elements of a given group are candidates |
| Grouping.FindInGroups | ingredient_parser/en/parser.py:197 | every candidate lies in some group, at a position it returns |
| Grouping.RunsAscending | ingredient_parser/en/parser.py:197 | any earlier group ends more than one below the start of any later group, so the groups come in ascending order |
| Grouping.RunBoundaryNotInRuns | ingredient_parser/en/parser.py:197 | no group contains the integer just before or just after a group |
| Grouping.GroupIsMaximal | ingredient_parser/en/parser.py:197 | the integer just before a group and the one just after it are not candidates, so each group is a maximal run |
| Grouping.GroupStartingAt | ingredient_parser/en/parser.py:197 | every candidate whose predecessor is not a candidate starts a group |
| NameRecovery.CandidatesFrom | ingredient_parser/en/parser.py:191 | the list is strictly ascending and holds exactly the positions from the start index on whose NAME confidence is at least 0.2 |
| NameRecovery.Candidates | ingredient_parser/en/parser.py:190-191 | `candidate_indices` is strictly ascending and `i` is in it exactly when `0 <= i < len` and the NAME confidence of `i` is at least 0.2 |
| NameRecovery.InsertByLengthBound | ingredient_parser/en/parser.py:200 | a lower bound on length shared by the inserted group and the sorted groups holds for every group after insertion |
| NameRecovery.InsertByLengthSorted | ingredient_parser/en/parser.py:200 | inserting into a list sorted by length keeps it sorted by length |
| NameRecovery.InsertByLengthPermutes | ingredient_parser/en/parser.py:200 | insertion adds the new group to the multiset and loses nothing |
| NameRecovery.InsertByLength | ingredient_parser/en/parser.py:200 | one step of the stable sort by length: the group goes in front of the first group at least as long, adding exactly one element; InsertByLengthBound, InsertByLengthSorted and InsertByLengthPermutes carry its properties |
| NameRecovery.SortByLength | ingredient_parser/en/parser.py:200 | `sorted(groups, key=len)`, keeping the number of groups; SortByLengthSorts (sorted permutation) and SortByLengthHead (element `[0]` is the first shortest group) carry its properties |
| NameRecovery.SortByLengthSorts | ingredient_parser/en/parser.py:200 | `sorted(groups, key=len)` is a permutation of the groups in ascending order of length |
| NameRecovery.FirstShortest | ingredient_parser/en/parser.py:200 | reference definition: an index whose group is no longer than any group and strictly shorter than every earlier group |
| NameRecovery.SortByLengthHead | ingredient_parser/en/parser.py:196-200 | element `[0]` of the stable sort is the first of the shortest groups |
| NameRecovery.ChosenRunExistsIffCandidate | ingredient_parser/en/parser.py:191-194 | a run is chosen exactly when some position has NAME confidence at least 0.2; otherwise the early return applies |
| NameRecovery.ChosenRunIsFirstShortestGroup | ingredient_parser/en/parser.py:197-200 | the chosen run is one of the groups, no longer than any group and strictly shorter than every earlier group |
| NameRecovery.ChosenRunIsMaximal | ingredient_parser/en/parser.py:191-200 | the chosen run is a non-empty range of consecutive positions, all with NAME confidence at least 0.2; each neighbour is either absent or below 0.2 |
| NameRecovery.MaximalRunIsGroup | ingredient_parser/en/parser.py:191-197 | every maximal run of positions with confidence at least 0.2 is one of the groups, with the same start and length |
| NameRecovery.GroupIsMaximalRun | ingredient_parser/en/parser.py:191-197 | every group of the candidates is a non-empty range of consecutive positions that forms a maximal run |
| NameRecovery.CandidateRunIsMaximal | ingredient_parser/en/parser.py:191 | a run of consecutive candidate positions whose two neighbours are not candidates is a maximal run |
| NameRecovery.ChosenRunIsShortest | ingredient_parser/en/parser.py:196-200 | the chosen run is no longer than any maximal candidate run, and among runs of equal length it starts earliest; this is the shortest run, not the longest the comments name |
| NameRecovery.ChosenRunNotLongest | ingredient_parser/en/parser.py:196-200 | for NAME confidences 0.5, 0.5, 0.0, 0.5 the chosen run is `[3]`, although positions 0 to 1 form a longer maximal run |
| NameRecovery.ChosenRunExample | ingredient_parser/en/parser.py:188-203 | for NAME confidences 0.05, 0.25, 0.3, 0.1 the chosen run is exactly positions 1 and 2 |
| NameRecovery.ChosenRun | ingredient_parser/en/parser.py:190-200 | the run `guess_ingredient_name` relabels: there is one exactly when some candidate exists; ChosenRunIsFirstShortestGroup, ChosenRunIsMaximal and ChosenRunIsShortest characterise it, and together they fix it uniquely |
| NameRecovery.GuessNameEffect | ingredient_parser/en/parser.py:191-205 | lengths are kept; with no position at 0.2 or above, labels and scores come back unchanged; otherwise each position of the chosen run has label NAME and its NAME confidence as score, and every other position keeps its label and score |
| NameRecovery.GuessNameFindsName | ingredient_parser/en/parser.py:193-203 | after recovery some label is NAME exactly when one was before or some position has NAME confidence at least 0.2 |
| NameRecovery.PromoteOneMore | ingredient_parser/en/parser.py:201-203 | one more loop iteration sets exactly that position's label to NAME and its score to its NAME confidence |
| NameRecovery.Promote | ingredient_parser/en/parser.py:201-202 | the labels with every listed position set to NAME, same length; PromoteOneMore and GuessNameEffect carry its per-position meaning |
| NameRecovery.Rescore | ingredient_parser/en/parser.py:201-203 | the scores with every listed position set to its NAME confidence, same length; PromoteOneMore and GuessNameEffect carry its per-position meaning |
| NameRecovery.GuessName | ingredient_parser/en/parser.py:165-205 | the labels and scores `guess_ingredient_name` returns, of the same lengths as its inputs; GuessNameEffect states exactly which positions change and to what, GuessNameFindsName when a NAME results |
| NameRecovery.GuessIngredientName | ingredient_parser/en/parser.py:165-205 | the in-place updates leave the label and score arrays equal to `GuessName` of their old contents |
| Plurals.RepluralisedAt | ingredient_parser/en/parser.py:72-78 | when no index is listed twice, token `i` becomes `pluralise_units` of its old value exactly when `i` is singularised and its label is not UNIT; all other tokens are unchanged |
| Plurals.RepluralisedTwice | ingredient_parser/en/parser.py:74-78 | an index listed twice is pluralised twice, because the loop walks a list, not a set |
| Plurals.RestoreAt | ingredient_parser/en/parser.py:75-78 | one pass of the loop body: the token list keeps its length and every token other than the visited one is unchanged |
| Plurals.Repluralised | ingredient_parser/en/parser.py:74-78 | the token list after the loop has visited every singularised index in order, of unchanged length; RepluralisedAt and RepluralisedTwice state its effect per token |
| Plurals.RestorePlurals | ingredient_parser/en/parser.py:74-78 | the token array afterwards equals the left fold of the loop body over the singularised indices, applied to its old contents |
| Parser.Tagger.constructor | ingredient_parser/en/parser.py:17 | a new tagger has no model loaded and has never opened one |
| Parser.Tagger.Info | ingredient_parser/en/parser.py:27-29 | the readiness probe fails with RuntimeError exactly when no model is loaded |
| Parser.Tagger.Open | ingredient_parser/en/parser.py:30-31 | opening loads the model and counts one more open |
| Parser.LoadModelIfNotLoaded | ingredient_parser/en/parser.py:20-31 | afterwards the model is loaded; it was opened once if it was not loaded before, and not at all if it was |
| Parser.LoadTwiceOpensOnce | ingredient_parser/en/parser.py:27-31 | two loads in a row from an unloaded tagger open the model exactly once |
| Parser.RepairLabels | ingredient_parser/en/parser.py:80-82 | the labels and scores handed on after the NAME guard, of unchanged lengths; RepairLabelsEffect states what the guard passes through and when a NAME results |
| Parser.RepairLabelsEffect | ingredient_parser/en/parser.py:80-82 | lengths are kept; a tagging with a NAME label passes through unchanged; afterwards some label is NAME exactly when the tagger gave one or some position has NAME confidence at least 0.2 |
| Parser.ParseIngredient | ingredient_parser/en/parser.py:65-82 | after the pipeline the model is loaded (opened at most once), the tokens are re-pluralised in place as `Repluralised` says, and the fresh label and score arrays equal `RepairLabels` of the tagger's output |

## Left out

- `PreProcessor`, `PostProcessor` and the `ParsedIngredient`/`ParserDebugInfo` records
  (parser.py:8-11, 67-68, 84-93, 147-162) are not part of this model. Their source is not
  part of it either. `ParseIngredient` ends with the tokens, labels and scores that would be
  handed to the post-processor.
- The tagger's `tag` and `marginal` calls (parser.py:69-70, 190) run in a foreign C library.
  Their results are inputs. The model does not tie them to whether a model is loaded.
- Locating the bundled model file through `importlib.resources` (parser.py:30) is file-system
  I/O. `Tagger.Open` takes no path. A missing or corrupt model file, which makes `open`
  fail, is not modelled.
- Parser.Tagger.Info: `info()` raising an error other than `RuntimeError` is not modelled.
  The probe either returns information or fails with `RuntimeError`.
- Thread safety of the process-wide `TAGGER` and any locking around the load are
  concurrency concerns, and are not modelled.
- Scores are `real`s, not floating point. Only the `>= 0.2` comparison is made on them.
- `pluralise_units` is an uninterpreted function parameter. Nothing is assumed about what
  it returns.
- Plurals.RestorePlurals: requires every singularised index to lie within the token list.
  Python would also accept negative indices, counting from the end. The preprocessor never
  produces them.
- Plurals.RepluralisedAt: the per-token statement needs each index to be listed once. For
  repeated indices, the fold `Repluralised` states the loop exactly, and `RepluralisedTwice`
  shows the double pluralisation.
- NameRecovery.SortByLength: Python's `sorted` is stable for the whole list. The model
  proves that the result is a permutation and sorted by length. Stability is proved only
  for element `[0]`, which is the only element used (`SortByLengthHead`).
- The return shape of `inspect_parser_en` (parser.py:157-162) differs from
  `parse_ingredient_en` only in what it wraps. One pipeline model covers both.
