/**
 * A multi-label confusion matrix that keeps a single binary confusion matrix
 * and exposes it as a one-element array of matrices.
 */
module ConfusionMatrix {

  /** The four counters of a binary confusion matrix. */
  class BinaryConfusionMatrix {
    var truePositives: nat
    var falsePositives: nat
    var trueNegatives: nat
    var falseNegatives: nat

    constructor ()
      ensures truePositives == 0 && falsePositives == 0 && trueNegatives == 0 && falseNegatives == 0
    {
      truePositives := 0;
      falsePositives := 0;
      trueNegatives := 0;
      falseNegatives := 0;
    }

    /** The number of instances counted: zero exactly when every counter is, and no counter exceeds it. */
    function GetTotal(): (total: nat)
      reads this
      ensures total == 0 <==> truePositives == 0 && falsePositives == 0 && trueNegatives == 0 && falseNegatives == 0
      ensures truePositives <= total && falsePositives <= total && trueNegatives <= total && falseNegatives <= total
    {
      truePositives + falsePositives + trueNegatives + falseNegatives
    }
  }

  class MultiLabelObjectConfusionMatrixWithBinaryBase {
    var labels: seq<string>
    var labelMap: map<string, nat>
    var binaryConfusionMatrix: BinaryConfusionMatrix
    var binaryConfusionMatrices: array<BinaryConfusionMatrix>

    /** The array of matrices holds exactly one, the object's own matrix. */
    ghost predicate Valid()
      reads this, binaryConfusionMatrices
    {
      binaryConfusionMatrices.Length == 1 && binaryConfusionMatrices[0] == binaryConfusionMatrix
    }

    function GetNumberLabels(): nat
      reads this
    {
      |labels|
    }

    constructor (labels: seq<string>, labelMap: map<string, nat>)
      ensures Valid()
      ensures this.labels == labels && this.labelMap == labelMap
      ensures fresh(binaryConfusionMatrix) && fresh(binaryConfusionMatrices)
      ensures binaryConfusionMatrix.GetTotal() == 0
    {
      this.labels := labels;
      this.labelMap := labelMap;
      var matrix := new BinaryConfusionMatrix();
      binaryConfusionMatrix := matrix;
      binaryConfusionMatrices := new BinaryConfusionMatrix[] [matrix];
      new;
      Reset();
    }

    /**
     * A fresh zeroed matrix, installed as the only element of a fresh array;
     * the labels, and so their number, play no part.
     */
    method Reset()
      modifies this
      ensures Valid()
      ensures fresh(binaryConfusionMatrix) && fresh(binaryConfusionMatrices)
      ensures binaryConfusionMatrix.GetTotal() == 0
      ensures GetTotal([]) == 0
      ensures labels == old(labels) && labelMap == old(labelMap)
    {
      var numberLabels := GetNumberLabels();
      binaryConfusionMatrix := new BinaryConfusionMatrix();
      binaryConfusionMatrices := new BinaryConfusionMatrix[] [binaryConfusionMatrix];
    }

    /** The object's own matrix, which is also the first of its array of matrices. */
    function GetBinaryConfusionMatrix(): (r: BinaryConfusionMatrix)
      reads this, binaryConfusionMatrices
      ensures Valid() ==> r == binaryConfusionMatrices[0]
    {
      binaryConfusionMatrix
    }

    /**
     * The total of the first of the given matrices; with none given, the
     * total of the first of the object's own, which is its own matrix.
     */
    function GetTotal(matrices: seq<BinaryConfusionMatrix>): (total: nat)
      reads this, binaryConfusionMatrices, binaryConfusionMatrices[..], binaryConfusionMatrix, matrices
      ensures |matrices| > 0 ==> total == matrices[0].GetTotal()
      ensures |matrices| == 0 && Valid() ==> total == binaryConfusionMatrix.GetTotal()
    {
      var chosen := if |matrices| == 0 then binaryConfusionMatrices[..] else matrices;
      var matrix := if |chosen| > 0 then chosen[0] else GetBinaryConfusionMatrix();
      matrix.GetTotal()
    }
  }
}
