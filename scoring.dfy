/**
 * Scoring utterances against a label resolver: the resolver's results laid
 * out by label index, the labels with the highest score, and the verdict on
 * them against the ground truth.
 */
module Scoring {
  import opened Wrappers
  import opened Text
  import opened ArgMax
  import opened Prediction
  import opened Vocabulary

  datatype Span = Span(offset: int, length: int)
  datatype Label = Label(labelType: int, name: string, span: Span)
  /** One result of the resolver: a label, its score and the closest training example. */
  datatype ScoreResult = ScoreResult(resultLabel: Label, score: int, closestText: string)

  /** The resolver's answer for one utterance: `None` for a falsy answer, `None` entries for falsy results. */
  type Resolver = string -> Option<seq<Option<ScoreResult>>>

  /** `result` is a result whose label has index `i`. */
  predicate MapsTo(result: Option<ScoreResult>, labelIndexMap: map<string, nat>, i: nat)
  {
    result.Some? && result.value.resultLabel.name in labelIndexMap && labelIndexMap[result.value.resultLabel.name] == i
  }

  /** The last result whose label has index `i`. */
  function LastAt(results: seq<Option<ScoreResult>>, labelIndexMap: map<string, nat>, i: nat): Option<ScoreResult>
  {
    if |results| == 0 then None
    else if MapsTo(results[|results| - 1], labelIndexMap, i) then results[|results| - 1]
    else LastAt(results[..|results| - 1], labelIndexMap, i)
  }

  /** One more than the largest label index any result has; 0 when none has one. */
  function Extent(results: seq<Option<ScoreResult>>, labelIndexMap: map<string, nat>): nat
  {
    if |results| == 0 then 0
    else
      var extent := Extent(results[..|results| - 1], labelIndexMap);
      var last := results[|results| - 1];
      if last.Some? && last.value.resultLabel.name in labelIndexMap && labelIndexMap[last.value.resultLabel.name] + 1 > extent
      then labelIndexMap[last.value.resultLabel.name] + 1
      else extent
  }

  /**
   * The array `scoreResultsToArray` builds: slot `i` holds the last result
   * whose label has index `i`, `None` stands for a hole, and the length is
   * one more than the largest index written.
   */
  function ScoreResultArray(results: seq<Option<ScoreResult>>, labelIndexMap: map<string, nat>): seq<Option<ScoreResult>>
  {
    seq(Extent(results, labelIndexMap), i requires 0 <= i => LastAt(results, labelIndexMap, i))
  }

  /** `LastAt` finds a result exactly when one has index `i`, and it is the last such. */
  lemma {:induction false} LastAtIsLast(results: seq<Option<ScoreResult>>, labelIndexMap: map<string, nat>, i: nat)
    ensures LastAt(results, labelIndexMap, i).Some? <==>
      exists j :: 0 <= j < |results| && MapsTo(results[j], labelIndexMap, i)
    ensures LastAt(results, labelIndexMap, i).Some? ==>
      exists j :: 0 <= j < |results| && results[j] == LastAt(results, labelIndexMap, i) && MapsTo(results[j], labelIndexMap, i)
        && forall k :: j < k < |results| ==> !MapsTo(results[k], labelIndexMap, i)
  {
    if |results| > 0 {
      var p := results[..|results| - 1];
      LastAtIsLast(p, labelIndexMap, i);
      if !MapsTo(results[|results| - 1], labelIndexMap, i) {
        if LastAt(p, labelIndexMap, i).Some? {
          var j :| 0 <= j < |p| && p[j] == LastAt(p, labelIndexMap, i) && MapsTo(p[j], labelIndexMap, i)
            && forall k :: j < k < |p| ==> !MapsTo(p[k], labelIndexMap, i);
          assert results[j] == p[j];
          assert forall k :: j < k < |results| ==> !MapsTo(results[k], labelIndexMap, i) by {
            forall k | j < k < |results| ensures !MapsTo(results[k], labelIndexMap, i) {
              if k < |p| {
                assert results[k] == p[k];
              }
            }
          }
        } else {
          forall j | 0 <= j < |results| ensures !MapsTo(results[j], labelIndexMap, i) {
            if j < |p| {
              assert results[j] == p[j];
            }
          }
        }
      }
    }
  }

  /** Every index some result has lies below the extent, and the extent's last slot is taken. */
  lemma {:induction false} ExtentBounds(results: seq<Option<ScoreResult>>, labelIndexMap: map<string, nat>)
    ensures forall i: nat :: LastAt(results, labelIndexMap, i).Some? ==> i < Extent(results, labelIndexMap)
    ensures Extent(results, labelIndexMap) > 0 ==> LastAt(results, labelIndexMap, Extent(results, labelIndexMap) - 1).Some?
  {
    if |results| > 0 {
      ExtentBounds(results[..|results| - 1], labelIndexMap);
    }
  }

  /** `scoreResultsToArray`, with the scores already integers. */
  method ScoreResultsToArray(results: seq<Option<ScoreResult>>, labelIndexMap: map<string, nat>)
    returns (scoreResultArray: seq<Option<ScoreResult>>)
    ensures scoreResultArray == ScoreResultArray(results, labelIndexMap)
  {
    scoreResultArray := [];
    for k := 0 to |results|
      invariant scoreResultArray == ScoreResultArray(results[..k], labelIndexMap)
    {
      ghost var done, next := results[..k], results[..k + 1];
      assert next[..k] == done && next[k] == results[k];
      ExtentBounds(done, labelIndexMap);
      var result := results[k];
      if result.Some? && result.value.resultLabel.name in labelIndexMap {
        var labelIndex := labelIndexMap[result.value.resultLabel.name];
        if labelIndex < |scoreResultArray| {
          scoreResultArray := scoreResultArray[labelIndex := result];
        } else {
          scoreResultArray := scoreResultArray + seq(labelIndex - |scoreResultArray|, _ => None) + [result];
        }
        assert |scoreResultArray| == Extent(next, labelIndexMap);
        forall i | 0 <= i < |scoreResultArray| ensures scoreResultArray[i] == LastAt(next, labelIndexMap, i) {
          if i != labelIndex && i >= |ScoreResultArray(done, labelIndexMap)| {
            assert LastAt(done, labelIndexMap, i).None?;
          }
        }
      } else {
        forall i | 0 <= i < |scoreResultArray| ensures scoreResultArray[i] == LastAt(next, labelIndexMap, i) {
          assert !MapsTo(result, labelIndexMap, i);
        }
      }
    }
    assert results[..|results|] == results;
  }

  /** Every label of the vocabulary has a result among `results`. */
  ghost predicate Covers(results: seq<Option<ScoreResult>>, stringArray: seq<string>)
  {
    forall i :: 0 <= i < |stringArray| ==>
      exists j :: 0 <= j < |results| && results[j].Some? && results[j].value.resultLabel.name == stringArray[i]
  }

  /**
   * When the results cover the vocabulary, the laid-out array has no holes:
   * one slot per label, slot `i` holding a result for label `i`.
   */
  lemma ScoreResultArrayDense(results: seq<Option<ScoreResult>>, stringArray: seq<string>, stringMap: map<string, nat>)
    requires IsVocabulary(stringArray, stringMap)
    requires Covers(results, stringArray)
    ensures |ScoreResultArray(results, stringMap)| == |stringArray|
    ensures forall i :: 0 <= i < |stringArray| ==>
      && ScoreResultArray(results, stringMap)[i].Some?
      && ScoreResultArray(results, stringMap)[i].value.resultLabel.name == stringArray[i]
  {
    var extent := Extent(results, stringMap);
    ExtentBounds(results, stringMap);
    forall i | 0 <= i < |stringArray|
      ensures LastAt(results, stringMap, i).Some? && LastAt(results, stringMap, i).value.resultLabel.name == stringArray[i]
    {
      var j :| 0 <= j < |results| && results[j].Some? && results[j].value.resultLabel.name == stringArray[i];
      assert MapsTo(results[j], stringMap, i);
      LastAtIsLast(results, stringMap, i);
      var x := LastAt(results, stringMap, i).value;
      assert x.resultLabel.name in stringArray;
      var i' :| 0 <= i' < |stringArray| && stringArray[i'] == x.resultLabel.name;
    }
    if extent > 0 {
      LastAtIsLast(results, stringMap, extent - 1);
      var j :| 0 <= j < |results| && MapsTo(results[j], stringMap, extent - 1);
      var name := results[j].value.resultLabel.name;
      var i' :| 0 <= i' < |stringArray| && stringArray[i'] == name;
      assert extent - 1 == i';
    }
    assert extent >= |stringArray| by {
      if |stringArray| > 0 {
        assert LastAt(results, stringMap, |stringArray| - 1).Some?;
      }
    }
  }

  /** No result names a vocabulary label, so nothing is laid out. */
  ghost predicate NamesNone(results: seq<Option<ScoreResult>>, labelIndexMap: map<string, nat>)
  {
    forall j :: 0 <= j < |results| ==> !(results[j].Some? && results[j].value.resultLabel.name in labelIndexMap)
  }

  /** The laid-out array is empty exactly when no result names a vocabulary label. */
  lemma {:induction false} ExtentZero(results: seq<Option<ScoreResult>>, labelIndexMap: map<string, nat>)
    ensures Extent(results, labelIndexMap) == 0 <==> NamesNone(results, labelIndexMap)
  {
    if |results| > 0 {
      var p := results[..|results| - 1];
      ExtentZero(p, labelIndexMap);
      forall j | 0 <= j < |p| ensures results[j] == p[j] {
      }
    }
  }

  /**
   * Laying the resolver's answer out by label index leaves no holes: every
   * vocabulary label has a result, or none has.
   */
  ghost predicate NoHoles(results: seq<Option<ScoreResult>>, stringArray: seq<string>, stringMap: map<string, nat>)
  {
    Covers(results, stringArray) || NamesNone(results, stringMap)
  }

  /** The results of a dense array. */
  function Values(scoreResultArray: seq<Option<ScoreResult>>): (r: seq<ScoreResult>)
    requires forall i :: 0 <= i < |scoreResultArray| ==> scoreResultArray[i].Some?
    ensures |r| == |scoreResultArray| && forall i :: 0 <= i < |r| ==> Some(r[i]) == scoreResultArray[i]
  {
    seq(|scoreResultArray|, i requires 0 <= i < |scoreResultArray| => scoreResultArray[i].value)
  }

  /** `scoreResultArray.map((x) => x.score)`. */
  function Scores(scoreResultArray: seq<ScoreResult>): (r: seq<int>)
    ensures |r| == |scoreResultArray| && forall i :: 0 <= i < |r| ==> r[i] == scoreResultArray[i].score
  {
    seq(|scoreResultArray|, i requires 0 <= i < |scoreResultArray| => scoreResultArray[i].score)
  }

  /** The label names at the given indexes. */
  function NamesAt(scoreResultArray: seq<ScoreResult>, indexes: seq<nat>): (r: seq<string>)
    requires forall j :: 0 <= j < |indexes| ==> indexes[j] < |scoreResultArray|
    ensures |r| == |indexes| && forall j :: 0 <= j < |r| ==> r[j] == scoreResultArray[indexes[j]].resultLabel.name
  {
    seq(|indexes|, j requires 0 <= j < |indexes| => scoreResultArray[indexes[j]].resultLabel.name)
  }

  /** The closest texts at the given indexes. */
  function ClosestTextsAt(scoreResultArray: seq<ScoreResult>, indexes: seq<nat>): (r: seq<string>)
    requires forall j :: 0 <= j < |indexes| ==> indexes[j] < |scoreResultArray|
    ensures |r| == |indexes| && forall j :: 0 <= j < |r| ==> r[j] == scoreResultArray[indexes[j]].closestText
  {
    seq(|indexes|, j requires 0 <= j < |indexes| => scoreResultArray[indexes[j]].closestText)
  }

  /** `labels.map((x) => stringMap[x])`: `None` stands for `undefined`. */
  function LabelIndexes(labels: seq<string>, stringMap: map<string, nat>): (r: seq<Option<nat>>)
    ensures |r| == |labels|
    ensures forall j :: 0 <= j < |r| ==> (r[j].Some? <==> labels[j] in stringMap)
    ensures forall j :: 0 <= j < |r| && r[j].Some? ==> r[j].value == stringMap[labels[j]]
  {
    seq(|labels|, j requires 0 <= j < |labels| => if labels[j] in stringMap then Some(stringMap[labels[j]]) else None)
  }

  /** An element of the input of `score`: an utterance and its ground-truth labels, or a falsy entry. */
  datatype UtteranceLabels = UtteranceLabels(utterance: string, labels: seq<string>)

  /** The fields of a `ScoreStructure` other than its two HTML tables. */
  datatype ScoreRecord = ScoreRecord(
    utterance: string,
    evaluation: Outcome,
    labels: seq<string>,
    labelsConcatenated: string,
    labelsIndexes: seq<Option<nat>>,
    labelsPredicted: seq<string>,
    labelsPredictedConcatenated: string,
    labelsPredictedScore: int,
    labelsPredictedIndexes: seq<nat>,
    labelsPredictedClosestText: seq<string>,
    scoreResultArray: seq<ScoreResult>,
    scoreArray: seq<int>)

  /** The errors `score` raises for one utterance. */
  datatype ScoreError =
    /** `getIndexesOnMaxEntries` on an empty score array. */
    | NoScores
    /** The ground-truth table reads a result at the `undefined` index of an unknown label. */
    | UndefinedLabelIndex

  /**
   * The record `score` builds for one utterance, or the error it raises:
   * the arg-max on no scores first, then the ground-truth table on a label
   * outside the vocabulary.
   */
  function ScoreOne(
    utterance: string, labels: seq<string>, results: seq<Option<ScoreResult>>,
    stringArray: seq<string>, stringMap: map<string, nat>): Result<ScoreRecord, ScoreError>
    requires IsVocabulary(stringArray, stringMap)
    requires NoHoles(results, stringArray, stringMap)
  {
    ExtentZero(results, stringMap);
    var laidOut := ScoreResultArray(results, stringMap);
    if |laidOut| == 0 then Failure(NoScores)
    else
      ScoreResultArrayDense(results, stringArray, stringMap);
      var scoreResultArray := Values(laidOut);
      var scoreArray := Scores(scoreResultArray);
      var max := Max(scoreArray);
      var indexesMax := IndexesOf(scoreArray, max);
      var labelsPredicted := NamesAt(scoreResultArray, indexesMax);
      var labelsIndexes := LabelIndexes(labels, stringMap);
      if exists j :: 0 <= j < |labelsIndexes| && labelsIndexes[j].None? then Failure(UndefinedLabelIndex)
      else Success(ScoreRecord(
        utterance,
        EvaluateMultiLabelPrediction(labels, labelsPredicted),
        labels,
        Join(labels, ','),
        labelsIndexes,
        labelsPredicted,
        Join(labelsPredicted, ','),
        max,
        indexesMax,
        ClosestTextsAt(scoreResultArray, indexesMax),
        scoreResultArray,
        scoreArray))
  }

  /** The pair is scored: it is truthy, its utterance is not empty, and the resolver answers. */
  predicate IsScored(pair: Option<UtteranceLabels>, resolve: Resolver)
  {
    pair.Some? && pair.value.utterance != "" && resolve(pair.value.utterance).Some?
  }

  /**
   * `score`: one record per scored pair, in order; the first scored pair that
   * raises an error (see `ScoreOne`) stops the run with it.
   */
  function ScoreSpec(
    resolve: Resolver, utteranceLabelsPairArray: seq<Option<UtteranceLabels>>,
    stringArray: seq<string>, stringMap: map<string, nat>): Result<seq<ScoreRecord>, ScoreError>
    requires IsVocabulary(stringArray, stringMap)
    requires forall u :: resolve(u).Some? ==> NoHoles(resolve(u).value, stringArray, stringMap)
  {
    if |utteranceLabelsPairArray| == 0 then Success([])
    else
      var n := |utteranceLabelsPairArray|;
      ScoreStep(resolve, ScoreSpec(resolve, utteranceLabelsPairArray[..n - 1], stringArray, stringMap),
        utteranceLabelsPairArray[n - 1], stringArray, stringMap)
  }

  /** One pass of the loop of `score`: a scored pair appends its record, or stops the run with its error. */
  function ScoreStep(
    resolve: Resolver, done: Result<seq<ScoreRecord>, ScoreError>, pair: Option<UtteranceLabels>,
    stringArray: seq<string>, stringMap: map<string, nat>): Result<seq<ScoreRecord>, ScoreError>
    requires IsVocabulary(stringArray, stringMap)
    requires forall u :: resolve(u).Some? ==> NoHoles(resolve(u).value, stringArray, stringMap)
  {
    if done.Failure? || !IsScored(pair, resolve) then done
    else
      match ScoreOne(pair.value.utterance, pair.value.labels, resolve(pair.value.utterance).value, stringArray, stringMap)
      case Failure(e) => Failure(e)
      case Success(record) => Success(done.value + [record])
  }

  lemma ScoreSpecStep(
    resolve: Resolver, utteranceLabelsPairArray: seq<Option<UtteranceLabels>>, k: nat,
    stringArray: seq<string>, stringMap: map<string, nat>)
    requires IsVocabulary(stringArray, stringMap)
    requires forall u :: resolve(u).Some? ==> NoHoles(resolve(u).value, stringArray, stringMap)
    requires k < |utteranceLabelsPairArray|
    ensures ScoreSpec(resolve, utteranceLabelsPairArray[..k + 1], stringArray, stringMap)
         == ScoreStep(resolve, ScoreSpec(resolve, utteranceLabelsPairArray[..k], stringArray, stringMap),
              utteranceLabelsPairArray[k], stringArray, stringMap)
  {
    assert utteranceLabelsPairArray[..k + 1][..k] == utteranceLabelsPairArray[..k];
  }

  /** The positions of the scored pairs. */
  function ScoredIndexes(utteranceLabelsPairArray: seq<Option<UtteranceLabels>>, resolve: Resolver): seq<nat>
  {
    if |utteranceLabelsPairArray| == 0 then []
    else
      var n := |utteranceLabelsPairArray|;
      ScoredIndexes(utteranceLabelsPairArray[..n - 1], resolve) + (if IsScored(utteranceLabelsPairArray[n - 1], resolve) then [n - 1] else [])
  }

  lemma {:induction false} ScoredIndexesSpec(utteranceLabelsPairArray: seq<Option<UtteranceLabels>>, resolve: Resolver)
    ensures StrictlyIncreasing(ScoredIndexes(utteranceLabelsPairArray, resolve))
    ensures forall i :: i in ScoredIndexes(utteranceLabelsPairArray, resolve) <==>
      0 <= i < |utteranceLabelsPairArray| && IsScored(utteranceLabelsPairArray[i], resolve)
  {
    if |utteranceLabelsPairArray| > 0 {
      var n := |utteranceLabelsPairArray|;
      var p := utteranceLabelsPairArray[..n - 1];
      ScoredIndexesSpec(p, resolve);
      var before := ScoredIndexes(p, resolve);
      var last := if IsScored(utteranceLabelsPairArray[n - 1], resolve) then [n - 1] else [];
      assert ScoredIndexes(utteranceLabelsPairArray, resolve) == before + last;
      forall j | 0 <= j < |before| ensures before[j] < n - 1 {
        assert before[j] in before;
      }
      forall i | 0 <= i < n - 1 ensures utteranceLabelsPairArray[i] == p[i] {
      }
    }
  }

  /**
   * What a record of `score` says about its utterance: the ground truth and
   * its indexes; one result per vocabulary label, in label order, the last
   * the resolver gave for it; the highest score and exactly the labels that
   * reach it, in ascending order, with their closest texts; and the verdict
   * on those labels.
   */
  ghost predicate RecordFor(
    record: ScoreRecord, utterance: string, labels: seq<string>, results: seq<Option<ScoreResult>>,
    stringArray: seq<string>, stringMap: map<string, nat>)
  {
    && RecordInputs(record, utterance, labels, stringMap)
    && RecordLayout(record, results, stringArray, stringMap)
    && RecordArgMax(record, labels, stringArray)
  }

  /** The record carries the utterance, its ground truth and the ground truth's indexes, all in the vocabulary. */
  ghost predicate RecordInputs(record: ScoreRecord, utterance: string, labels: seq<string>, stringMap: map<string, nat>)
  {
    && record.utterance == utterance
    && record.labels == labels
    && record.labelsConcatenated == Join(labels, ',')
    && |record.labelsIndexes| == |labels|
    && (forall j :: 0 <= j < |labels| ==>
          labels[j] in stringMap && record.labelsIndexes[j] == Some(stringMap[labels[j]]))
  }

  /** The record holds one result per vocabulary label, in label order, the last the resolver gave for it, and its score. */
  ghost predicate RecordLayout(
    record: ScoreRecord, results: seq<Option<ScoreResult>>, stringArray: seq<string>, stringMap: map<string, nat>)
  {
    && |record.scoreResultArray| == |stringArray| == |record.scoreArray|
    && (forall i :: 0 <= i < |stringArray| ==>
          && record.scoreResultArray[i].resultLabel.name == stringArray[i]
          && Some(record.scoreResultArray[i]) == LastAt(results, stringMap, i)
          && record.scoreArray[i] == record.scoreResultArray[i].score)
  }

  /** The record's prediction: the highest score, exactly the labels reaching it, their closest texts, and the verdict. */
  ghost predicate RecordArgMax(record: ScoreRecord, labels: seq<string>, stringArray: seq<string>)
    requires |record.scoreResultArray| == |stringArray|
  {
    && record.labelsPredictedScore in record.scoreArray
    && (forall i :: 0 <= i < |record.scoreArray| ==> record.scoreArray[i] <= record.labelsPredictedScore)
    && StrictlyIncreasing(record.labelsPredictedIndexes)
    && (forall i :: i in record.labelsPredictedIndexes <==>
          0 <= i < |record.scoreArray| && record.scoreArray[i] == record.labelsPredictedScore)
    && |record.labelsPredicted| == |record.labelsPredictedIndexes| == |record.labelsPredictedClosestText|
    && (forall j :: 0 <= j < |record.labelsPredictedIndexes| ==>
          && record.labelsPredictedIndexes[j] < |stringArray|
          && record.labelsPredicted[j] == record.scoreResultArray[record.labelsPredictedIndexes[j]].resultLabel.name
          && record.labelsPredictedClosestText[j] == record.scoreResultArray[record.labelsPredictedIndexes[j]].closestText)
    && record.labelsPredictedConcatenated == Join(record.labelsPredicted, ',')
    && record.evaluation == EvaluateMultiLabelPrediction(labels, record.labelsPredicted)
  }

  /**
   * The record for one utterance, and its two failures: no result names a
   * vocabulary label, or some ground-truth label is outside the vocabulary.
   */
  lemma ScoreOneCorrect(
    utterance: string, labels: seq<string>, results: seq<Option<ScoreResult>>,
    stringArray: seq<string>, stringMap: map<string, nat>)
    requires IsVocabulary(stringArray, stringMap)
    requires NoHoles(results, stringArray, stringMap)
    ensures var r := ScoreOne(utterance, labels, results, stringArray, stringMap);
      && (r == Failure(NoScores) <==> NamesNone(results, stringMap))
      && (r == Failure(UndefinedLabelIndex) <==>
            !NamesNone(results, stringMap) && exists j :: 0 <= j < |labels| && labels[j] !in stringMap)
      && (r.Success? ==> RecordFor(r.value, utterance, labels, results, stringArray, stringMap))
  {
    ExtentZero(results, stringMap);
    var r := ScoreOne(utterance, labels, results, stringArray, stringMap);
    if !NamesNone(results, stringMap) {
      var labelsIndexes := LabelIndexes(labels, stringMap);
      assert (exists j :: 0 <= j < |labelsIndexes| && labelsIndexes[j].None?)
         <==> exists j :: 0 <= j < |labels| && labels[j] !in stringMap;
    }
    if r.Success? {
      ScoreOneLayout(utterance, labels, results, stringArray, stringMap);
      ScoreOneArgMax(utterance, labels, results, stringArray, stringMap);
    }
  }

  lemma ScoreOneLayout(
    utterance: string, labels: seq<string>, results: seq<Option<ScoreResult>>,
    stringArray: seq<string>, stringMap: map<string, nat>)
    requires IsVocabulary(stringArray, stringMap)
    requires NoHoles(results, stringArray, stringMap)
    requires ScoreOne(utterance, labels, results, stringArray, stringMap).Success?
    ensures RecordLayout(ScoreOne(utterance, labels, results, stringArray, stringMap).value, results, stringArray, stringMap)
  {
    ExtentZero(results, stringMap);
    ScoreResultArrayDense(results, stringArray, stringMap);
    var record := ScoreOne(utterance, labels, results, stringArray, stringMap).value;
    var arr := ScoreResultArray(results, stringMap);
    var values := Values(arr);
    assert record.scoreResultArray == values && record.scoreArray == Scores(values);
    forall i | 0 <= i < |stringArray|
      ensures Some(record.scoreResultArray[i]) == LastAt(results, stringMap, i)
    {
      assert Some(values[i]) == arr[i];
    }
  }

  lemma ScoreOneArgMax(
    utterance: string, labels: seq<string>, results: seq<Option<ScoreResult>>,
    stringArray: seq<string>, stringMap: map<string, nat>)
    requires IsVocabulary(stringArray, stringMap)
    requires NoHoles(results, stringArray, stringMap)
    requires ScoreOne(utterance, labels, results, stringArray, stringMap).Success?
    ensures |ScoreOne(utterance, labels, results, stringArray, stringMap).value.scoreResultArray| == |stringArray|
    ensures RecordArgMax(ScoreOne(utterance, labels, results, stringArray, stringMap).value, labels, stringArray)
  {
    ExtentZero(results, stringMap);
    ScoreResultArrayDense(results, stringArray, stringMap);
    var record := ScoreOne(utterance, labels, results, stringArray, stringMap).value;
    var idx := record.labelsPredictedIndexes;
    assert idx == IndexesOf(record.scoreArray, record.labelsPredictedScore);
    assert forall i :: i in idx <==> 0 <= i < |record.scoreArray| && record.scoreArray[i] == record.labelsPredictedScore;
  }

  /**
   * The evaluation set's labels are scored against the training set's
   * vocabulary: a ground-truth label the vocabulary lacks raises an error,
   * while the same pair with a known label gives a record. An empty answer
   * from the resolver is not skipped: it reaches the arg-max, which raises.
   */
  lemma ScoreOneErrors(score: int)
    ensures ScoreOne("utt", ["a"], [], ["a"], map["a" := 0]) == Failure(NoScores)
    ensures ScoreOne("utt", ["zzz"], [Some(ScoreResult(Label(1, "a", Span(0, 0)), score, "x"))], ["a"], map["a" := 0])
         == Failure(UndefinedLabelIndex)
    ensures ScoreOne("utt", ["a"], [Some(ScoreResult(Label(1, "a", Span(0, 0)), score, "x"))], ["a"], map["a" := 0]).Success?
  {
    var results := [Some(ScoreResult(Label(1, "a", Span(0, 0)), score, "x"))];
    assert results[0].value.resultLabel.name == "a" && "a" in map["a" := 0];
    assert !NamesNone(results, map["a" := 0]);
    ScoreOneCorrect("utt", ["zzz"], results, ["a"], map["a" := 0]);
    ScoreOneCorrect("utt", ["a"], results, ["a"], map["a" := 0]);
    ScoreOneCorrect("utt", ["a"], [], ["a"], map["a" := 0]);
  }

  lemma {:induction false} ScoreSpecStopsAtFailure(
    resolve: Resolver, utteranceLabelsPairArray: seq<Option<UtteranceLabels>>, k: nat,
    stringArray: seq<string>, stringMap: map<string, nat>)
    requires IsVocabulary(stringArray, stringMap)
    requires forall u :: resolve(u).Some? ==> NoHoles(resolve(u).value, stringArray, stringMap)
    requires k <= |utteranceLabelsPairArray|
    requires ScoreSpec(resolve, utteranceLabelsPairArray[..k], stringArray, stringMap).Failure?
    ensures ScoreSpec(resolve, utteranceLabelsPairArray, stringArray, stringMap)
         == ScoreSpec(resolve, utteranceLabelsPairArray[..k], stringArray, stringMap)
  {
    if k < |utteranceLabelsPairArray| {
      var p := utteranceLabelsPairArray[..|utteranceLabelsPairArray| - 1];
      assert p[..k] == utteranceLabelsPairArray[..k];
      ScoreSpecStopsAtFailure(resolve, p, k, stringArray, stringMap);
    } else {
      assert utteranceLabelsPairArray[..k] == utteranceLabelsPairArray;
    }
  }

  /**
   * The pair is scored and raises an error: its answer names no vocabulary
   * label, or one of its ground-truth labels is outside the vocabulary.
   */
  ghost predicate PairFails(pair: Option<UtteranceLabels>, resolve: Resolver, stringMap: map<string, nat>)
  {
    && IsScored(pair, resolve)
    && (|| NamesNone(resolve(pair.value.utterance).value, stringMap)
        || exists j :: 0 <= j < |pair.value.labels| && pair.value.labels[j] !in stringMap)
  }

  /**
   * `score` fails exactly when some scored pair raises an error; otherwise it
   * returns one record per scored pair, in order, each saying what
   * `RecordFor` says about its utterance.
   */
  lemma ScoreSpecCorrect(
    resolve: Resolver, utteranceLabelsPairArray: seq<Option<UtteranceLabels>>,
    stringArray: seq<string>, stringMap: map<string, nat>)
    requires IsVocabulary(stringArray, stringMap)
    requires forall u :: resolve(u).Some? ==> NoHoles(resolve(u).value, stringArray, stringMap)
    ensures var r := ScoreSpec(resolve, utteranceLabelsPairArray, stringArray, stringMap);
      var scored := ScoredIndexes(utteranceLabelsPairArray, resolve);
      && (r.Failure? <==>
            exists i :: 0 <= i < |utteranceLabelsPairArray| && PairFails(utteranceLabelsPairArray[i], resolve, stringMap))
      && (r.Success? ==>
            && |r.value| == |scored|
            && forall k :: 0 <= k < |scored| ==>
                 && scored[k] < |utteranceLabelsPairArray|
                 && ScoredRecord(r.value[k], utteranceLabelsPairArray[scored[k]], resolve, stringArray, stringMap))
  {
    ScoreSpecFailsIff(resolve, utteranceLabelsPairArray, stringArray, stringMap);
    ScoreSpecRecords(resolve, utteranceLabelsPairArray, stringArray, stringMap);
  }

  lemma {:induction false} ScoreSpecFailsIff(
    resolve: Resolver, utteranceLabelsPairArray: seq<Option<UtteranceLabels>>,
    stringArray: seq<string>, stringMap: map<string, nat>)
    requires IsVocabulary(stringArray, stringMap)
    requires forall u :: resolve(u).Some? ==> NoHoles(resolve(u).value, stringArray, stringMap)
    ensures ScoreSpec(resolve, utteranceLabelsPairArray, stringArray, stringMap).Failure?
        <==> exists i :: 0 <= i < |utteranceLabelsPairArray| && PairFails(utteranceLabelsPairArray[i], resolve, stringMap)
  {
    if |utteranceLabelsPairArray| > 0 {
      var n := |utteranceLabelsPairArray|;
      var p := utteranceLabelsPairArray[..n - 1];
      ScoreSpecFailsIff(resolve, p, stringArray, stringMap);
      var done := ScoreSpec(resolve, p, stringArray, stringMap);
      var pair := utteranceLabelsPairArray[n - 1];
      assert ScoreSpec(resolve, utteranceLabelsPairArray, stringArray, stringMap)
          == ScoreStep(resolve, done, pair, stringArray, stringMap);
      if IsScored(pair, resolve) {
        ScoreOneCorrect(pair.value.utterance, pair.value.labels, resolve(pair.value.utterance).value, stringArray, stringMap);
      }
      assert (exists i :: 0 <= i < n && PairFails(utteranceLabelsPairArray[i], resolve, stringMap))
         <==> (exists i :: 0 <= i < n - 1 && PairFails(p[i], resolve, stringMap)) || PairFails(pair, resolve, stringMap) by {
        forall i | 0 <= i < n - 1 ensures utteranceLabelsPairArray[i] == p[i] {
        }
      }
    }
  }

  lemma {:induction false} ScoreSpecRecords(
    resolve: Resolver, utteranceLabelsPairArray: seq<Option<UtteranceLabels>>,
    stringArray: seq<string>, stringMap: map<string, nat>)
    requires IsVocabulary(stringArray, stringMap)
    requires forall u :: resolve(u).Some? ==> NoHoles(resolve(u).value, stringArray, stringMap)
    ensures var r := ScoreSpec(resolve, utteranceLabelsPairArray, stringArray, stringMap);
      var scored := ScoredIndexes(utteranceLabelsPairArray, resolve);
      r.Success? ==>
        && |r.value| == |scored|
        && forall k :: 0 <= k < |scored| ==>
             && scored[k] < |utteranceLabelsPairArray|
             && ScoredRecord(r.value[k], utteranceLabelsPairArray[scored[k]], resolve, stringArray, stringMap)
  {
    if |utteranceLabelsPairArray| > 0 {
      var n := |utteranceLabelsPairArray|;
      var p := utteranceLabelsPairArray[..n - 1];
      ScoreSpecRecords(resolve, p, stringArray, stringMap);
      ScoredIndexesSpec(p, resolve);
      var done := ScoreSpec(resolve, p, stringArray, stringMap);
      var pair := utteranceLabelsPairArray[n - 1];
      var scoredBefore := ScoredIndexes(p, resolve);
      var scored := ScoredIndexes(utteranceLabelsPairArray, resolve);
      var r := ScoreSpec(resolve, utteranceLabelsPairArray, stringArray, stringMap);
      assert r == ScoreStep(resolve, done, pair, stringArray, stringMap);
      var last := if IsScored(pair, resolve) then [n - 1] else [];
      assert scored == scoredBefore + last;
      if r.Success? {
        assert done.Success?;
        var appended: seq<ScoreRecord> := [];
        if IsScored(pair, resolve) {
          var u := pair.value.utterance;
          ScoreOneCorrect(u, pair.value.labels, resolve(u).value, stringArray, stringMap);
          appended := [ScoreOne(u, pair.value.labels, resolve(u).value, stringArray, stringMap).value];
          assert ScoredRecord(appended[0], pair, resolve, stringArray, stringMap);
        }
        assert r.value == done.value + appended;
        forall k | 0 <= k < |scored|
          ensures scored[k] < n
          ensures ScoredRecord(r.value[k], utteranceLabelsPairArray[scored[k]], resolve, stringArray, stringMap)
        {
          if k < |scoredBefore| {
            assert scoredBefore[k] in scoredBefore;
            assert utteranceLabelsPairArray[scored[k]] == p[scoredBefore[k]];
            assert r.value[k] == done.value[k];
          } else {
            assert scored[k] == n - 1 && r.value[k] == appended[0];
          }
        }
      }
    }
  }

  /** The pair is scored and the record says what `RecordFor` says about its utterance. */
  ghost predicate ScoredRecord(
    record: ScoreRecord, pair: Option<UtteranceLabels>, resolve: Resolver,
    stringArray: seq<string>, stringMap: map<string, nat>)
  {
    && IsScored(pair, resolve)
    && RecordFor(record, pair.value.utterance, pair.value.labels, resolve(pair.value.utterance).value, stringArray, stringMap)
  }

  /**
   * The body of the loop of `score` for one utterance the resolver answered;
   * building the ground-truth table is where an unknown label raises its error.
   */
  method ScoreUtterance(
    utterance: string, labels: seq<string>, scoreResults: seq<Option<ScoreResult>>,
    stringArray: seq<string>, stringMap: map<string, nat>)
    returns (r: Result<ScoreRecord, ScoreError>)
    requires IsVocabulary(stringArray, stringMap)
    requires NoHoles(scoreResults, stringArray, stringMap)
    ensures r == ScoreOne(utterance, labels, scoreResults, stringArray, stringMap)
  {
    var labelsIndexes := LabelIndexes(labels, stringMap);
    var labelsConcatenated := Join(labels, ',');
    var arr := ScoreResultsToArray(scoreResults, stringMap);
    ExtentZero(scoreResults, stringMap);
    if |arr| > 0 {
      ScoreResultArrayDense(scoreResults, stringArray, stringMap);
    }
    var scoreResultArray := Values(arr);
    var scoreArray := Scores(scoreResultArray);
    var argMax := GetIndexesOnMaxEntries(scoreArray);
    if argMax.Failure? {
      return Failure(NoScores);
    }
    var labelsPredictedScore := argMax.value.max;
    var labelsPredictedIndexes := argMax.value.indexesMax;
    var labelsPredicted := NamesAt(scoreResultArray, labelsPredictedIndexes);
    var labelsPredictedConcatenated := Join(labelsPredicted, ',');
    var labelsPredictedEvaluation := EvaluateMultiLabelPrediction(labels, labelsPredicted);
    var labelsPredictedClosestText := ClosestTextsAt(scoreResultArray, labelsPredictedIndexes);
    if exists j :: 0 <= j < |labelsIndexes| && labelsIndexes[j].None? {
      return Failure(UndefinedLabelIndex);
    }
    return Success(ScoreRecord(
      utterance,
      labelsPredictedEvaluation,
      labels,
      labelsConcatenated,
      labelsIndexes,
      labelsPredicted,
      labelsPredictedConcatenated,
      labelsPredictedScore,
      labelsPredictedIndexes,
      labelsPredictedClosestText,
      scoreResultArray,
      scoreArray));
  }

  /** `score`, with the resolver as a function and the detailed logging left out. */
  method Score(
    resolve: Resolver, utteranceLabelsPairArray: seq<Option<UtteranceLabels>>,
    stringArray: seq<string>, stringMap: map<string, nat>)
    returns (r: Result<seq<ScoreRecord>, ScoreError>)
    requires IsVocabulary(stringArray, stringMap)
    requires forall u :: resolve(u).Some? ==> NoHoles(resolve(u).value, stringArray, stringMap)
    ensures r == ScoreSpec(resolve, utteranceLabelsPairArray, stringArray, stringMap)
  {
    var scoreStructureArray: seq<ScoreRecord> := [];
    for k := 0 to |utteranceLabelsPairArray|
      invariant ScoreSpec(resolve, utteranceLabelsPairArray[..k], stringArray, stringMap) == Success(scoreStructureArray)
    {
      ScoreSpecStep(resolve, utteranceLabelsPairArray, k, stringArray, stringMap);
      var utteranceLabels := utteranceLabelsPairArray[k];
      if utteranceLabels.None? {
        continue;
      }
      var utterance := utteranceLabels.value.utterance;
      if utterance == "" {
        continue;
      }
      var scoreResults := resolve(utterance);
      if scoreResults.None? {
        continue;
      }
      var record := ScoreUtterance(utterance, utteranceLabels.value.labels, scoreResults.value, stringArray, stringMap);
      if record.Failure? {
        ScoreSpecStopsAtFailure(resolve, utteranceLabelsPairArray, k + 1, stringArray, stringMap);
        return Failure(record.error);
      }
      scoreStructureArray := scoreStructureArray + [record.value];
    }
    assert utteranceLabelsPairArray[..|utteranceLabelsPairArray|] == utteranceLabelsPairArray;
    return Success(scoreStructureArray);
  }
}
