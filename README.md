# Multi-label intent evaluation: a Dafny model

This project models the integer and string core of the evaluation pipeline in
the orchestrator library (`Utility` in `packages/orchestratorlib/src/utility.ts`)
and the single-matrix confusion holder of the dispatcher
(`MultiLabelObjectConfusionMatrixWithBinaryBase`). It also proves properties
of that model.

The modules follow the source's parts:

- `Wrappers` holds `Option` and `Result`.
- `Text` covers the JavaScript string operations the code relies on: `<` on strings, `split`, `join` and `trim`.
- `ArgMax` covers `getIndexesOnMaxEntries` and `getIndexOnFirstMaxEntry`. Both are loops proved against `Max`, `IndexesOf` and `FirstIndexOf`. A thrown error becomes `Failure(EmptyInput)`.
- `Prediction` covers `evaluateMultiLabelPrediction`. The outcome is a datatype whose `Code()` is the returned number.
- `Vocabulary` covers the label vocabulary. `sortStringArray` becomes an insertion sort with the source's comparator. The `buildStringIdNumberValueDictionaryFrom*` functions are methods proved against `SortedLabels`.
- `LabelTables` covers the caller-owned tables that `processUtteranceMultiLabelTsv` fills:
  - The utterance-to-labels object is the class `LabelDictionary`. It keeps its keys in insertion order.
  - The `Map<string, Set<string>>` of duplicates is the class `DuplicateMap`.
  - Their methods update them in place.
  - Each method is proved against a function on values: `AddLabel`, `AddLabels`, `ProcessLines`.
- `LabelStatistics` covers the following:
  - `reverseUniqueKeyedArray`;
  - `countMapValues`;
  - the integer part of `generateUtteranceStatisticsAndHtmlTable`, which gives the utterances per number of labels, sorted, with a total.
- `Scoring` covers `score` and `scoreResultsToArray`. The label resolver is a function parameter.
- `ConfusionMatrix` covers the binary confusion matrix and the single-matrix holder. The binary matrix is reduced to its four counters. The holder's `reset` installs a fresh matrix as the only element of a fresh array.

The TSV reader's default columns are kept as the constants `DefaultUtteranceIndex` (2), `DefaultLabelsIndex` (0) and `DefaultLabelsPredictedIndex` (1).

`score` raises an error in two places. The first is the arg-max, when an answer names no vocabulary label. The second is the ground-truth HTML table, which reads the result at the `undefined` index of a label outside the vocabulary. The model keeps both as `ScoreError` values, in that order, and leaves out the table itself.

The `isEmpty*` predicates appear as length tests where they are used. A `debuggingThrow` becomes a `Failure` value.

The test `key in map` in `insertStringPairToStringIdStringSetNativeMap` looks at the properties of the `Map` object, not at its entries. The model keeps this behaviour as written:

- A key such as `"constructor"` or `"toString"` accumulates a set.
- Every other key gets a fresh `{value}` each time, replacing the earlier set.

`OrdinaryUtteranceKeepsLastDuplicate` states the consequence. For an ordinary utterance, the duplicates map keeps only the last repeated label.

## Model

| member | source | states |
|---|---|---|
| Text.CompareStrings | packages/orchestratorlib/src/utility.ts:1261-1272 | the sort comparator returns 0 exactly for equal strings, a negative number exactly when `n1 < n2`, and a positive number exactly when `n2 < n1` |
| Text.LexLessIrreflexive | packages/orchestratorlib/src/utility.ts:1261-1272 | no string is below itself under `<` |
| Text.LexLessTransitive | packages/orchestratorlib/src/utility.ts:1261-1272 | string `<` is transitive |
| Text.LexLessTotal | packages/orchestratorlib/src/utility.ts:1261-1272 | of two different strings, one is below the other |
| Text.LexLessStrictOrder | packages/orchestratorlib/src/utility.ts:1261-1272 | two strings are equal exactly when neither is below the other, and `<` is asymmetric |
| Text.Split | packages/orchestratorlib/src/utility.ts:41-42 | `split` on one character gives at least one piece, and no piece contains the separator |
| Text.JoinSplit | packages/orchestratorlib/src/utility.ts:57-58 | joining the pieces of a split with the separator gives back the string |
| Text.SplitJoin | packages/orchestratorlib/src/utility.ts:691 | splitting the join of separator-free parts gives back the parts |
| Text.Join | packages/orchestratorlib/src/utility.ts:691 | `join`: the parts with the separator between neighbours; `SplitJoin` and `JoinSplit` prove it inverse to `Split` |
| Text.TrimStart | packages/orchestratorlib/src/utility.ts:54-56 | the result is a suffix that does not start with whitespace, and everything dropped is whitespace |
| Text.TrimEnd | packages/orchestratorlib/src/utility.ts:54-56 | the result is a prefix that does not end with whitespace, and everything dropped is whitespace |
| Text.Trim | packages/orchestratorlib/src/utility.ts:54-56 | the result is the input with whitespace removed at both ends, and it neither starts nor ends with whitespace |
| Text.TrimIdempotent | packages/orchestratorlib/src/utility.ts:54-56 | trimming twice is trimming once |
| ArgMax.Max | packages/orchestratorlib/src/utility.ts:1081-1101 | the maximum is an element and bounds every element |
| ArgMax.IndexesOf | packages/orchestratorlib/src/utility.ts:1081-1101 | the list holds exactly the indexes whose value is `m`, in strictly increasing order |
| ArgMax.FirstIndexOf | packages/orchestratorlib/src/utility.ts:1103-1119 | the lowest index holding `m` |
| ArgMax.GetIndexesOnMaxEntries | packages/orchestratorlib/src/utility.ts:1081-1101 | fails exactly on an empty array; otherwise `max` is the maximum and `indexesMax` is exactly the strictly increasing list of indexes holding it, never empty |
| ArgMax.GetIndexOnFirstMaxEntry | packages/orchestratorlib/src/utility.ts:1103-1119 | fails exactly on an empty array; otherwise the maximum and the lowest index holding it |
| ArgMax.MaxStep | packages/orchestratorlib/src/utility.ts:1089-1095 | one more entry makes it the maximum exactly when it is above the maximum so far |
| ArgMax.IndexesOfStep | packages/orchestratorlib/src/utility.ts:1096-1098 | one more entry joins the tie list exactly when it equals the maximum |
| ArgMax.IndexesOfAbove | packages/orchestratorlib/src/utility.ts:1091-1094 | when a new maximum is found, no earlier index holds it, so the tie list restarts with one index |
| ArgMax.FirstIndexOfUnique | packages/orchestratorlib/src/utility.ts:1103-1119 | an index holding `m` with no earlier index holding it is the first index of `m` |
| ArgMax.MaxIsHeld | packages/orchestratorlib/src/utility.ts:1081-1101 | the tie set of a non-empty array is never empty |
| ArgMax.FirstMaxIsFirstOfIndexes | packages/orchestratorlib/src/utility.ts:1081-1119 | the two scans agree: the first-maximum index is `indexesMax[0]` |
| Prediction.AllIncluded | packages/orchestratorlib/src/utility.ts:886-890 | the early-return scan succeeds exactly when every prediction is a ground truth |
| Prediction.EvaluateMultiLabelPrediction | packages/orchestratorlib/src/utility.ts:879-892 | 3 exactly when both lists are empty, 1 exactly when only the predictions are, 2 exactly when some prediction is not a ground truth, 0 exactly when there are predictions and all are ground truths (a partial match included) |
| Prediction.EvaluateExamples | packages/orchestratorlib/src/utility.ts:879-892 | the four codes on small inputs, including 0 for a prediction that covers only part of the ground truth |
| Vocabulary.Dedup | packages/orchestratorlib/src/utility.ts:1235-1236 | `new Set` gives each string once, with the same elements |
| Vocabulary.Flatten | packages/orchestratorlib/src/utility.ts:1248-1252 | the elements the nested loops visit are exactly the elements of the inner arrays |
| Vocabulary.DedupStep | packages/orchestratorlib/src/utility.ts:1250 | `stringSet.add` keeps a string exactly when it is new, at the end of the insertion order |
| Vocabulary.FlattenStep | packages/orchestratorlib/src/utility.ts:1249-1253 | the outer loop visits one array's elements after all earlier ones |
| Vocabulary.AddToStringSet | packages/orchestratorlib/src/utility.ts:1250-1252 | the inner loop leaves the set holding the distinct strings seen so far, in first-occurrence order |
| Vocabulary.LessEqTransitive | packages/orchestratorlib/src/utility.ts:1261-1272 | the comparator's non-strict order is transitive |
| Vocabulary.Insert | packages/orchestratorlib/src/utility.ts:1261-1272 | insertion adds exactly the one element (multiset) |
| Vocabulary.InsertSorted | packages/orchestratorlib/src/utility.ts:1261-1272 | insertion into a sorted array keeps it sorted |
| Vocabulary.SortStringArray | packages/orchestratorlib/src/utility.ts:1261-1272 | the result is sorted by the comparator and is a permutation of the input |
| Vocabulary.SortedDistinctIsStrictlyAscending | packages/orchestratorlib/src/utility.ts:1237-1238 | a sorted duplicate-free array is strictly ascending |
| Vocabulary.PermutationKeepsDistinct | packages/orchestratorlib/src/utility.ts:1237-1238 | a permutation of a duplicate-free array is duplicate-free |
| Vocabulary.DistinctCountsOne | packages/orchestratorlib/src/utility.ts:1235-1238 | in a duplicate-free array every element occurs once |
| Vocabulary.SortedLabels | packages/orchestratorlib/src/utility.ts:1232-1242 | deduplicated and sorted labels are strictly ascending, with the same elements as the input |
| Vocabulary.StrictlyAscendingUnique | packages/orchestratorlib/src/utility.ts:1232-1242 | two strictly ascending arrays with the same elements are equal |
| Vocabulary.SortedLabelsDependOnlyOnLabelSet | packages/orchestratorlib/src/utility.ts:1232-1242 | the vocabulary depends only on the set of labels, not on their order or repetitions |
| Vocabulary.SortedLabelsExample | packages/orchestratorlib/src/utility.ts:1232-1242 | for any labels `a < b < c`, the input `[b, a, a, c]` gives the vocabulary `[a, b, c]` |
| Vocabulary.BuildStringIdNumberValueDictionaryFromUniqueStringArray | packages/orchestratorlib/src/utility.ts:1223-1230 | the keys are the elements; each key maps to its last position; a duplicate-free input gives `map[array[i]] == i` |
| Vocabulary.BuildStringIdNumberValueDictionaryFromStringArray | packages/orchestratorlib/src/utility.ts:1232-1242 | the array is strictly ascending, has the input's elements and pairs with a map where `map[array[i]] == i` |
| Vocabulary.BuildStringIdNumberValueDictionaryFromStringArrays | packages/orchestratorlib/src/utility.ts:1244-1259 | the same for the union of the arrays: strictly ascending, exactly the elements of the inner arrays, `map[array[i]] == i` |
| LabelTables.InsertStringPair | packages/orchestratorlib/src/utility.ts:1298-1318 | other keys are unchanged; an ordinary key gets the singleton `{value}` and loses its earlier set; only a key naming a `Map`/`Object` prototype property adds to its set |
| LabelTables.AddLabel | packages/orchestratorlib/src/utility.ts:78-94 | an unseen utterance gets `[label]` and its key is appended; a new label is appended to the utterance's array; a present label leaves the dictionary alone and the pair goes to the duplicates |
| LabelTables.AddLabels | packages/orchestratorlib/src/utility.ts:58-65 | the label loop of one line: each trimmed label added in turn; `AddLabelsKeepsConsistent`, `AddLabelsGrows` and `AddLabelsRecords` state its properties |
| LabelTables.AddLabelGrows | packages/orchestratorlib/src/utility.ts:78-94 | adding a label only extends arrays at their end, and the label ends up in the utterance's array |
| LabelTables.AddLabelKeepsConsistent | packages/orchestratorlib/src/utility.ts:78-104 | keys stay distinct and match the entries; arrays stay non-empty and duplicate-free; every duplicate pair names a recorded utterance and one of its labels |
| LabelTables.GrowsTransitive | packages/orchestratorlib/src/utility.ts:58-73 | growth of the tables composes across updates |
| LabelTables.AddLabelsKeepsConsistent | packages/orchestratorlib/src/utility.ts:58-73 | a line's label loop keeps the tables consistent |
| LabelTables.AddLabelsGrows | packages/orchestratorlib/src/utility.ts:58-73 | a line's label loop only adds |
| LabelTables.GrowsKeepsRecords | packages/orchestratorlib/src/utility.ts:41-75 | what a table records stays recorded as it grows |
| LabelTables.RecordsExtend | packages/orchestratorlib/src/utility.ts:59-65 | a line's label loop has recorded every label once it has recorded the earlier ones and the last one |
| LabelTables.ParseLine | packages/orchestratorlib/src/utility.ts:41-57 | the tab-split line's trimmed utterance, labels and predicted labels, with an out-of-range label column read as empty, or the error for a missing utterance column |
| LabelTables.ProcessLine | packages/orchestratorlib/src/utility.ts:42-73 | one line: its labels into the first table pair, then its predicted labels into the second, or its error |
| LabelTables.ProcessLines | packages/orchestratorlib/src/utility.ts:40-74 | the `forEach` over the lines, stopped by the first error; `ProcessLinesFailsIff` and `ProcessLinesRecordsEveryLine` state its result |
| LabelTables.ProcessUtteranceMultiLabelTsvSpec | packages/orchestratorlib/src/utility.ts:29-76 | the whole reader: a negative utterance column fails before any line, otherwise the lines in order |
| LabelTables.AddLabelsRecords | packages/orchestratorlib/src/utility.ts:58-73 | after the loop the utterance holds every trimmed label of the line |
| LabelTables.ProcessLinesKeepsConsistent | packages/orchestratorlib/src/utility.ts:41-75 | reading lines keeps both table pairs consistent |
| LabelTables.ProcessLinesGrows | packages/orchestratorlib/src/utility.ts:41-75 | reading lines only adds to both tables |
| LabelTables.GrowsKeepsLineRecorded | packages/orchestratorlib/src/utility.ts:41-75 | a recorded line stays recorded as the tables grow |
| LabelTables.ProcessLineRecords | packages/orchestratorlib/src/utility.ts:42-73 | a parsed line is recorded in both tables by its own step |
| LabelTables.ProcessLinesRecordsEveryLine | packages/orchestratorlib/src/utility.ts:41-75 | a run without error has recorded every line's utterance with each of its labels and predicted labels |
| LabelTables.GrowsKeepsLinesRecorded | packages/orchestratorlib/src/utility.ts:41-74 | lines already read stay recorded while later lines are read |
| LabelTables.LinesRecordedExtend | packages/orchestratorlib/src/utility.ts:41-74 | once the earlier lines and the last line are recorded, every line is |
| LabelTables.ProcessLinesStopsAtError | packages/orchestratorlib/src/utility.ts:43-45 | after a line fails, later lines change nothing |
| LabelTables.ProcessLinesFailsIff | packages/orchestratorlib/src/utility.ts:41-45 | a run fails exactly when some line fails to parse |
| LabelTables.ProcessUtteranceMultiLabelTsvFailsIff | packages/orchestratorlib/src/utility.ts:38-45 | `processUtteranceMultiLabelTsv` raises an error exactly when the utterance column is negative or some line has no such column |
| LabelTables.ProcessUtteranceMultiLabelTsvDefaultsFailsIff | packages/orchestratorlib/src/utility.ts:34-45 | with the default columns (utterance 2, labels 0, predicted labels 1), a run fails exactly when some line has fewer than three fields |
| LabelTables.ProcessUtteranceMultiLabelTsvRecordsEveryLine | packages/orchestratorlib/src/utility.ts:29-76 | a successful run keeps the tables consistent and records every line's utterance with each trimmed label and predicted label |
| LabelTables.OrdinaryUtteranceKeepsLastDuplicate | packages/orchestratorlib/src/utility.ts:1304-1316 | for an ordinary utterance, a second repeated label replaces the first in the duplicates map |
| LabelTables.AddIfNewLabel | packages/orchestratorlib/src/utility.ts:96-104 | returns true exactly when the label was missing; the array gains the label at its end in that case and is unchanged otherwise |
| LabelTables.InsertStringPairToStringIdStringSetNativeMap | packages/orchestratorlib/src/utility.ts:1298-1318 | updates the map in place as `InsertStringPair` says and returns the same map |
| LabelTables.AddToMultiLabelUtteranceStructure | packages/orchestratorlib/src/utility.ts:78-94 | the dictionary and the duplicates map become what `AddLabel` says |
| LabelTables.ProcessLineInPlace | packages/orchestratorlib/src/utility.ts:42-73 | one line updates both table pairs in place as `ProcessLine` says; it returns the error exactly when the line has no utterance column |
| LabelTables.AddLabelsInPlace | packages/orchestratorlib/src/utility.ts:58-73 | a line's label loop leaves the tables as `AddLabels` says |
| LabelTables.ProcessUtteranceMultiLabelTsv | packages/orchestratorlib/src/utility.ts:29-76 | both table pairs end as the run over the lines says; an error is returned exactly when the run fails; success returns true |
| LabelStatistics.SumLengthsUpdate | packages/orchestratorlib/src/utility.ts:1320-1323 | replacing one array changes the count by the change in its length |
| LabelStatistics.CountMapValues | packages/orchestratorlib/src/utility.ts:1320-1323 | `countMapValues`: the total length of the dictionary's arrays; `ReverseUniqueKeyedArrayCount` relates it across the reversal |
| LabelStatistics.ReverseUniqueKeyedArray | packages/orchestratorlib/src/utility.ts:894-909 | the nested loops build the reversed dictionary `Reverse` describes |
| LabelStatistics.PushKey | packages/orchestratorlib/src/utility.ts:900-904 | one push of a key under an element, creating the element's array when it is new |
| LabelStatistics.PushAll | packages/orchestratorlib/src/utility.ts:899-905 | the inner loop: the key pushed under each element of its array in turn |
| LabelStatistics.Reverse | packages/orchestratorlib/src/utility.ts:894-909 | the outer loop over the keys, skipping the empty key; `ReverseMembership`, `ReverseCount` and `ReverseDistinct` state its properties |
| LabelStatistics.PushKeyCount | packages/orchestratorlib/src/utility.ts:900-904 | one push keeps the dictionary well formed and adds one to `countMapValues` |
| LabelStatistics.PushAllCount | packages/orchestratorlib/src/utility.ts:899-905 | the inner loop adds the array's length to the count |
| LabelStatistics.ReverseCount | packages/orchestratorlib/src/utility.ts:894-909 | the reversed count equals the input count minus the empty key's array |
| LabelStatistics.ReverseUniqueKeyedArrayCount | packages/orchestratorlib/src/utility.ts:894-909 | `countMapValues` of the reversed dictionary, plus the length of the empty utterance's array, equals `countMapValues` of the input |
| LabelStatistics.PushAllMembership | packages/orchestratorlib/src/utility.ts:899-905 | after the inner loop an element lists a key exactly when it did before or is one of the pushed elements under that key |
| LabelStatistics.ReverseMembership | packages/orchestratorlib/src/utility.ts:894-909 | the reversal over a key list relates exactly the pairs with a non-empty key |
| LabelStatistics.ReverseUniqueKeyedArrayMembership | packages/orchestratorlib/src/utility.ts:894-909 | label `e` lists utterance `u` exactly when `u` is a non-empty utterance whose array holds `e` |
| LabelStatistics.PushAllDistinct | packages/orchestratorlib/src/utility.ts:899-905 | pushing a new key under distinct elements keeps every array duplicate-free |
| LabelStatistics.ReverseDistinct | packages/orchestratorlib/src/utility.ts:894-909 | with distinct keys and duplicate-free arrays, every reversed array is duplicate-free |
| LabelStatistics.ReverseUniqueKeyedArrayDistinct | packages/orchestratorlib/src/utility.ts:894-909 | duplicate-free label arrays give duplicate-free utterance arrays |
| LabelStatistics.LabelCountHistogramCounts | packages/orchestratorlib/src/utility.ts:781-792 | the histogram has an entry for a number of labels exactly when some utterance has that many, and the entry counts those utterances |
| LabelStatistics.LabelCountHistogram | packages/orchestratorlib/src/utility.ts:781-792 | the `reduce` into a number-keyed object: per number of labels, the utterances having it; `LabelCountHistogramCounts` proves this |
| LabelStatistics.RowsBelow | packages/orchestratorlib/src/utility.ts:793 | every listed row lies below the bound |
| LabelStatistics.RowsBelowContents | packages/orchestratorlib/src/utility.ts:793 | the entries of the integer-keyed object are listed in ascending key order, each exactly once |
| LabelStatistics.MaxLabelCount | packages/orchestratorlib/src/utility.ts:781-792 | no utterance has more labels than the bound |
| LabelStatistics.HistogramKeysBelow | packages/orchestratorlib/src/utility.ts:781-792 | every histogram key lies below the bound |
| LabelStatistics.SumBelowUpdate | packages/orchestratorlib/src/utility.ts:787-791 | raising one entry raises the histogram sum by the same amount |
| LabelStatistics.SumBelowEmpty | packages/orchestratorlib/src/utility.ts:792 | the empty accumulator sums to zero |
| LabelStatistics.HistogramSum | packages/orchestratorlib/src/utility.ts:781-792 | the histogram's counts add up to the number of utterances |
| LabelStatistics.SumCountsRowsBelow | packages/orchestratorlib/src/utility.ts:793-804 | the listed rows add up to the histogram sum |
| LabelStatistics.SumCountsAppend | packages/orchestratorlib/src/utility.ts:803-804 | the total of two row lists is the sum of their totals |
| LabelStatistics.InsertByCount | packages/orchestratorlib/src/utility.ts:793-802 | insertion adds exactly the one row (multiset) |
| LabelStatistics.SortByCountDescending | packages/orchestratorlib/src/utility.ts:793-802 | the sort is a permutation of its input |
| LabelStatistics.InsertByCountOrdered | packages/orchestratorlib/src/utility.ts:793-802 | inserting a row with a larger label count keeps rows ordered by descending count, then ascending label count |
| LabelStatistics.SortByCountDescendingOrdered | packages/orchestratorlib/src/utility.ts:793-802 | the stable sort of ascending rows orders them by descending count, then ascending label count |
| LabelStatistics.InsertByCountSum | packages/orchestratorlib/src/utility.ts:803-804 | insertion adds the row's count to the total |
| LabelStatistics.SortByCountDescendingSum | packages/orchestratorlib/src/utility.ts:803-804 | sorting keeps the total |
| LabelStatistics.AscendingRowsContents | packages/orchestratorlib/src/utility.ts:781-793 | the unsorted rows list, in ascending order, one row per occurring label count with its utterance count, adding up to the number of utterances |
| LabelStatistics.UtterancesWithStep | packages/orchestratorlib/src/utility.ts:783-791 | a new utterance joins the set for its own number of labels only, and was not counted before |
| LabelStatistics.AscendingRowsCounts | packages/orchestratorlib/src/utility.ts:781-793 | every unsorted row counts the utterances with its number of labels, and that count is positive |
| LabelStatistics.AscendingRowsCover | packages/orchestratorlib/src/utility.ts:781-793 | every utterance's number of labels has its row |
| LabelStatistics.GenerateUtteranceStatisticsCorrect | packages/orchestratorlib/src/utility.ts:776-805 | the rows are ordered by descending utterance count, then ascending label count; each row counts the utterances with that many labels; every utterance's label count has its row; the total is the number of utterances |
| LabelStatistics.GenerateUtteranceStatistics | packages/orchestratorlib/src/utility.ts:776-805 | the sorted rows and their total; `GenerateUtteranceStatisticsCorrect` states them |
| Scoring.LastAtIsLast | packages/orchestratorlib/src/utility.ts:1216-1218 | a slot is filled exactly when some result has that label index, and it holds the last such result |
| Scoring.LastAt | packages/orchestratorlib/src/utility.ts:1216-1218 | the result `scoreResultsToArray` leaves at slot `i`: the last one whose label has index `i`; `LastAtIsLast` proves this |
| Scoring.Extent | packages/orchestratorlib/src/utility.ts:1216-1218 | the length of the array `scoreResultsToArray` builds: one more than the largest index written; `ExtentBounds` and `ExtentZero` prove this |
| Scoring.ScoreResultArray | packages/orchestratorlib/src/utility.ts:1196-1221 | the array `scoreResultsToArray` returns, slot by slot; the method `ScoreResultsToArray` is proved equal to it and `ScoreResultArrayDense` gives its shape |
| Scoring.ExtentBounds | packages/orchestratorlib/src/utility.ts:1216-1218 | the array's length is one more than the largest index written |
| Scoring.ExtentZero | packages/orchestratorlib/src/utility.ts:1196-1221 | the laid-out array is empty exactly when no result names a vocabulary label |
| Scoring.ScoreResultsToArray | packages/orchestratorlib/src/utility.ts:1196-1221 | slot `i` holds the last result for label `i`; results for unknown labels are dropped; unwritten slots are holes |
| Scoring.ScoreResultArrayDense | packages/orchestratorlib/src/utility.ts:1196-1221 | with a result for every vocabulary label, the array has one slot per label, slot `i` holds label `i`, and there are no holes |
| Scoring.Values | packages/orchestratorlib/src/utility.ts:702 | the results of a dense array, slot by slot |
| Scoring.Scores | packages/orchestratorlib/src/utility.ts:706 | `scoreArray[i]` is the score of slot `i` |
| Scoring.NamesAt | packages/orchestratorlib/src/utility.ts:713 | the predicted labels are the names at the arg-max indexes |
| Scoring.ClosestTextsAt | packages/orchestratorlib/src/utility.ts:716 | the closest texts at the arg-max indexes |
| Scoring.LabelIndexes | packages/orchestratorlib/src/utility.ts:690 | each ground-truth label's index, undefined exactly for names outside the vocabulary |
| Scoring.ScoredIndexesSpec | packages/orchestratorlib/src/utility.ts:683-699 | the scored pairs are exactly those that are truthy, have a non-empty utterance and get an answer from the resolver, in input order |
| Scoring.ScoreOne | packages/orchestratorlib/src/utility.ts:685-743 | the loop body of `score` for one answered pair: the record, or the error it raises; `ScoreOneCorrect` states what it holds |
| Scoring.ScoreStep | packages/orchestratorlib/src/utility.ts:683-743 | one pass of the loop: skip, append the pair's record, or stop with its error; `ScoreSpecStep` ties it to `ScoreSpec` |
| Scoring.ScoreSpec | packages/orchestratorlib/src/utility.ts:676-774 | `score` as a whole, pair by pair; `ScoreSpecCorrect` states its result |
| Scoring.ScoreOneCorrect | packages/orchestratorlib/src/utility.ts:685-743 | the record for one utterance carries the ground truth and its indexes, the laid-out results and scores, the maximum score, exactly the labels reaching it in ascending index order with their closest texts, and the outcome code; it raises `NoScores` exactly when no result names a vocabulary label, and otherwise `UndefinedLabelIndex` exactly when a ground-truth label is outside the vocabulary |
| Scoring.ScoreOneLayout | packages/orchestratorlib/src/utility.ts:702-706 | the record's result array has one result per vocabulary label, in label order, the last given for it, and its score array holds their scores |
| Scoring.ScoreOneArgMax | packages/orchestratorlib/src/utility.ts:707-716 | the record's predicted score is the maximum; its predicted indexes are exactly those reaching it, ascending; it has their names and closest texts and the verdict on them |
| Scoring.ScoreOneErrors | packages/orchestratorlib/src/utility.ts:707-728 | with the vocabulary `["a"]`, the ground truth `["zzz"]` raises `UndefinedLabelIndex`, the ground truth `["a"]` gives a record, and an empty answer raises `NoScores` instead of being skipped |
| Scoring.ScoreSpecStep | packages/orchestratorlib/src/utility.ts:683-743 | one more pair changes the run only by that pair's step |
| Scoring.ScoreSpecFailsIff | packages/orchestratorlib/src/utility.ts:683-743 | `score` fails exactly when some scored pair raises an error: its answer names no vocabulary label, or one of its ground-truth labels is outside the vocabulary |
| Scoring.ScoreSpecRecords | packages/orchestratorlib/src/utility.ts:683-743 | a successful `score` has one record per scored pair, in input order, each as `ScoreOneCorrect` describes |
| Scoring.ScoreSpecStopsAtFailure | packages/orchestratorlib/src/utility.ts:683-743 | once an utterance raises an error (the arg-max at :707 or the ground-truth table at :723-728), the error leaves the loop and `score` raises it whatever follows |
| Scoring.ScoreSpecCorrect | packages/orchestratorlib/src/utility.ts:676-774 | `score` fails exactly when some scored pair has an answer naming no vocabulary label or a ground-truth label outside the vocabulary; otherwise it gives one record per scored pair, in input order, each as `ScoreOneCorrect` describes |
| Scoring.ScoreUtterance | packages/orchestratorlib/src/utility.ts:689-743 | the loop body builds the record `ScoreOne` describes, or raises `NoScores` on an empty score array and then `UndefinedLabelIndex` on a ground-truth label outside the vocabulary |
| Scoring.Score | packages/orchestratorlib/src/utility.ts:676-774 | the loop returns what `ScoreSpec` says |
| ConfusionMatrix.BinaryConfusionMatrix.GetTotal | packages/dispatcher/src/mathematics/confusion_matrix/MultiLabelObjectConfusionMatrixWithBinaryBase.ts:51-52 | the total is zero exactly when every counter is, and no counter exceeds it |
| ConfusionMatrix.BinaryConfusionMatrix.constructor | packages/dispatcher/src/mathematics/confusion_matrix/MultiLabelObjectConfusionMatrixWithBinaryBase.ts:18 | a new matrix has all counters zero |
| ConfusionMatrix.MultiLabelObjectConfusionMatrixWithBinaryBase.constructor | packages/dispatcher/src/mathematics/confusion_matrix/MultiLabelObjectConfusionMatrixWithBinaryBase.ts:20-25 | a new holder keeps its labels and map and already has a fresh zeroed matrix as the only element of its matrix array |
| ConfusionMatrix.MultiLabelObjectConfusionMatrixWithBinaryBase.Reset | packages/dispatcher/src/mathematics/confusion_matrix/MultiLabelObjectConfusionMatrixWithBinaryBase.ts:27-35 | a fresh zeroed matrix becomes the holder's matrix and the only element of a fresh array; the total is zero afterwards; the labels are unchanged and play no part |
| ConfusionMatrix.MultiLabelObjectConfusionMatrixWithBinaryBase.GetBinaryConfusionMatrix | packages/dispatcher/src/mathematics/confusion_matrix/MultiLabelObjectConfusionMatrixWithBinaryBase.ts:37-39 | the holder's matrix, which is element 0 of its array while the holder is valid |
| ConfusionMatrix.MultiLabelObjectConfusionMatrixWithBinaryBase.GetTotal | packages/dispatcher/src/mathematics/confusion_matrix/MultiLabelObjectConfusionMatrixWithBinaryBase.ts:41-54 | with a non-empty argument, the total of its first matrix, ignoring the rest; with none, the total of the holder's own matrix |

## Left out

- Floating point is not modelled. Scores are integers, and `round` in `scoreResultsToArray` is omitted. The ambiguity, low-confidence and precision/recall computations are out of scope.
- HTML tables, report templates and the logging in `score` are presentation and I/O. The records keep every field of a `ScoreStructure` except its two HTML tables. The error that building the ground-truth table raises on an unknown label is kept as `UndefinedLabelIndex`.
- File and console I/O and `debuggingLog` are not modelled. A `debuggingThrow` is a `Failure`.
- Scoring.Score: it requires that each answer of the resolver has a result for every vocabulary label or for none. An answer covering only some labels leaves holes in the laid-out array, and the source then reads `undefined` scores. That path is not modelled. An answer covering no label is modelled: it raises `NoScores`.
- Scoring.Score: the resolver is an arbitrary function from an utterance to an optional result array. Its internals are not part of this model.
- Scoring.ScoreSpecCorrect: a label name the resolver returns twice is taken from its last result. Apart from that, nothing is said about duplicate results.
- Null and `undefined` arguments are not modelled: `isEmpty*` on `null`, and `insertStringPairToStringIdStringSetNativeMap` building a new map for a missing one. Empty strings and arrays are modelled.
- Property names of `Object.prototype` used as utterances or labels in plain objects are not modelled. Examples are `"constructor"` and `"__proto__"`. For these, `key in object` and `object[key]` see inherited members. The dictionaries are modelled by their own keys only. The `Map` case in `insertStringPairToStringIdStringSetNativeMap` is modelled.
- Object keys that look like array indexes are listed first by JavaScript, in numeric order. The model keeps plain insertion order for string keys. The histogram's integer keys are listed in ascending order, as JavaScript does.
- The histogram rows carry the number of labels as a number, where `Object.entries` would give its decimal string. The final `['Total', n]` row is the `total` field.
- Vocabulary.SortStringArray: it sorts a value and returns it. The source sorts the caller's array in place.
- LabelTables.ProcessUtteranceMultiLabelTsv: it requires the two label dictionaries to be different objects, and the two duplicates maps too. The source also accepts one object in both places, and then the predicted labels land in the same table as the labels. That aliased call is not modelled.
- LabelTables.ProcessLineInPlace: the same restriction as `ProcessUtteranceMultiLabelTsv`, for one line.
- LabelTables.AddIfNewLabel: the push into the caller's array is returned as the new array. The caller stores it back, so aliasing of that array is not modelled.
- Strings are sequences of characters. JavaScript compares and splits UTF-16 code units, so strings outside the Basic Multilingual Plane may order differently.
- `BinaryConfusionMatrix` is reduced to its four counters and `getTotal`. The rest of the dispatcher's confusion-matrix classes is not part of this model.
