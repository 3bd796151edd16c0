/** Classification of one (ground truths, predictions) pair into an outcome code. */
module Prediction {

  /** The four outcomes; `Code` gives the number the source returns for each. */
  datatype Outcome = TruePositive | FalseNegative | FalsePositive | TrueNegative
  {
    function Code(): nat
    {
      match this
      case TruePositive => 0
      case FalseNegative => 1
      case FalsePositive => 2
      case TrueNegative => 3
    }
  }

  /** The early-return scan: is every prediction one of the ground truths? */
  function AllIncluded<T(==)>(predictions: seq<T>, groundTruths: seq<T>): (r: bool)
    ensures r <==> forall i :: 0 <= i < |predictions| ==> predictions[i] in groundTruths
  {
    |predictions| == 0 || (predictions[0] in groundTruths && AllIncluded(predictions[1..], groundTruths))
  }

  /**
   * `evaluateMultiLabelPrediction`: TrueNegative when both lists are empty,
   * FalseNegative when only the predictions are, FalsePositive when some
   * prediction is not a ground truth, and TruePositive otherwise, including
   * when the predictions are only part of the ground truths.
   */
  function EvaluateMultiLabelPrediction<T(==)>(groundTruths: seq<T>, predictions: seq<T>): (r: Outcome)
    ensures r == TrueNegative <==> |predictions| == 0 && |groundTruths| == 0
    ensures r == FalseNegative <==> |predictions| == 0 && |groundTruths| > 0
    ensures r == FalsePositive <==> exists i :: 0 <= i < |predictions| && predictions[i] !in groundTruths
    ensures r == TruePositive <==> |predictions| > 0 && forall i :: 0 <= i < |predictions| ==> predictions[i] in groundTruths
  {
    if |predictions| <= 0 then
      if |groundTruths| <= 0 then TrueNegative else FalseNegative
    else if !AllIncluded(predictions, groundTruths) then FalsePositive
    else TruePositive
  }

  /** The documented cases, including the accepted partial match. */
  lemma EvaluateExamples()
    ensures EvaluateMultiLabelPrediction<string>([], []).Code() == 3
    ensures EvaluateMultiLabelPrediction(["a"], []).Code() == 1
    ensures EvaluateMultiLabelPrediction(["a"], ["b"]).Code() == 2
    ensures EvaluateMultiLabelPrediction(["a", "b"], ["a"]).Code() == 0
  {
  }
}
