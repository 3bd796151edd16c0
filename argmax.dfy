/**
 * Arg-max selection over a score array: `getIndexesOnMaxEntries` keeps every
 * index that ties for the maximum, `getIndexOnFirstMaxEntry` only the first.
 */
module ArgMax {
  import opened Wrappers

  /** The result of `getIndexesOnMaxEntries`. */
  datatype IndexesOnMax = IndexesOnMax(indexesMax: seq<nat>, max: int)

  /** The result of `getIndexOnFirstMaxEntry`. */
  datatype IndexOnFirstMax = IndexOnFirstMax(indexMax: nat, max: int)

  /** The one failure: the input array is empty ('inputArray is empty'). */
  datatype ArgMaxError = EmptyInput

  predicate StrictlyIncreasing(r: seq<nat>)
  {
    forall j, k :: 0 <= j < k < |r| ==> r[j] < r[k]
  }

  /** The largest entry of a non-empty array. */
  function Max(s: seq<int>): (m: int)
    requires |s| > 0
    ensures m in s
    ensures forall i :: 0 <= i < |s| ==> s[i] <= m
  {
    if |s| == 1 then s[0]
    else
      var p := Max(s[..|s| - 1]);
      if s[|s| - 1] > p then s[|s| - 1] else p
  }

  /** Every index at which `s` holds `m`, in increasing order. */
  function IndexesOf(s: seq<int>, m: int): (r: seq<nat>)
    ensures forall j :: 0 <= j < |r| ==> r[j] < |s| && s[r[j]] == m
    ensures forall i :: 0 <= i < |s| && s[i] == m ==> i in r
    ensures StrictlyIncreasing(r)
  {
    if |s| == 0 then []
    else IndexesOf(s[..|s| - 1], m) + (if s[|s| - 1] == m then [|s| - 1] else [])
  }

  /** The lowest index at which `s` holds `m`. */
  function FirstIndexOf(s: seq<int>, m: int): (k: nat)
    requires m in s
    ensures k < |s| && s[k] == m
    ensures forall j :: 0 <= j < k ==> s[j] != m
  {
    if s[0] == m then 0 else 1 + FirstIndexOf(s[1..], m)
  }

  /**
   * `getIndexesOnMaxEntries`: fails on an empty array; otherwise `max` is the
   * maximum and `indexesMax` lists, in increasing order, exactly the indexes
   * holding it, so it is never empty.
   */
  method GetIndexesOnMaxEntries(inputArray: seq<int>) returns (r: Result<IndexesOnMax, ArgMaxError>)
    ensures r.Failure? <==> |inputArray| == 0
    ensures r.Success? ==> r.value == IndexesOnMax(IndexesOf(inputArray, Max(inputArray)), Max(inputArray))
    ensures r.Success? ==> |r.value.indexesMax| > 0
    ensures r.Success? ==>
      forall i :: 0 <= i < |inputArray| ==> (i in r.value.indexesMax <==> inputArray[i] == r.value.max)
  {
    if |inputArray| == 0 {
      return Failure(EmptyInput);
    }
    var indexesMax: seq<nat> := [0];
    var max := inputArray[0];
    assert inputArray[..1] == [inputArray[0]];
    for i := 1 to |inputArray|
      invariant max == Max(inputArray[..i])
      invariant indexesMax == IndexesOf(inputArray[..i], max)
    {
      MaxStep(inputArray, i);
      IndexesOfStep(inputArray, i, max);
      var inputCurrent := inputArray[i];
      if inputCurrent > max {
        IndexesOfAbove(inputArray[..i], inputCurrent);
        IndexesOfStep(inputArray, i, inputCurrent);
        max := inputCurrent;
        indexesMax := [i];
        continue;
      }
      if inputCurrent == max {
        indexesMax := indexesMax + [i];
      }
    }
    assert inputArray[..|inputArray|] == inputArray;
    MaxIsHeld(inputArray);
    r := Success(IndexesOnMax(indexesMax, max));
  }

  /**
   * `getIndexOnFirstMaxEntry`: fails on an empty array; otherwise `max` is the
   * maximum and `indexMax` the lowest index holding it.
   */
  method GetIndexOnFirstMaxEntry(inputArray: seq<int>) returns (r: Result<IndexOnFirstMax, ArgMaxError>)
    ensures r.Failure? <==> |inputArray| == 0
    ensures r.Success? ==> r.value == IndexOnFirstMax(FirstIndexOf(inputArray, Max(inputArray)), Max(inputArray))
  {
    if |inputArray| == 0 {
      return Failure(EmptyInput);
    }
    var indexMax: nat := 0;
    var max := inputArray[0];
    assert inputArray[..1] == [inputArray[0]];
    for i := 1 to |inputArray|
      invariant max == Max(inputArray[..i])
      invariant indexMax < i && inputArray[indexMax] == max
      invariant forall j :: 0 <= j < indexMax ==> inputArray[j] < max
    {
      MaxStep(inputArray, i);
      var inputCurrent := inputArray[i];
      if inputCurrent > max {
        max := inputCurrent;
        indexMax := i;
      }
    }
    assert inputArray[..|inputArray|] == inputArray;
    FirstIndexOfUnique(inputArray, max, indexMax);
    r := Success(IndexOnFirstMax(indexMax, max));
  }

  /** One more entry: the maximum so far or the new entry, whichever is larger. */
  lemma MaxStep(s: seq<int>, i: nat)
    requires 0 < i < |s|
    ensures Max(s[..i + 1]) == if s[i] > Max(s[..i]) then s[i] else Max(s[..i])
  {
    assert s[..i + 1][..i] == s[..i];
  }

  /** One more entry: the index is appended exactly when it holds `m`. */
  lemma IndexesOfStep(s: seq<int>, i: nat, m: int)
    requires i < |s|
    ensures IndexesOf(s[..i + 1], m) == IndexesOf(s[..i], m) + (if s[i] == m then [i] else [])
  {
    assert s[..i + 1][..i] == s[..i];
  }

  /** No index holds a value above every entry. */
  lemma {:induction false} IndexesOfAbove(s: seq<int>, m: int)
    requires forall i :: 0 <= i < |s| ==> s[i] < m
    ensures IndexesOf(s, m) == []
  {
    if |s| > 0 {
      IndexesOfAbove(s[..|s| - 1], m);
    }
  }

  lemma {:induction false} FirstIndexOfUnique(s: seq<int>, m: int, k: nat)
    requires k < |s| && s[k] == m
    requires forall j :: 0 <= j < k ==> s[j] != m
    ensures FirstIndexOf(s, m) == k
  {
    if k > 0 {
      FirstIndexOfUnique(s[1..], m, k - 1);
    }
  }

  /** The maximum is held somewhere, so the tie set is never empty. */
  lemma MaxIsHeld(s: seq<int>)
    requires |s| > 0
    ensures |IndexesOf(s, Max(s))| > 0
  {
    var k :| 0 <= k < |s| && s[k] == Max(s);
    assert k in IndexesOf(s, Max(s));
  }

  /**
   * The two arg-max scans agree: the single index is the first of the tie set,
   * which is the lowest index holding the maximum.
   */
  lemma FirstMaxIsFirstOfIndexes(s: seq<int>)
    requires |s| > 0
    ensures |IndexesOf(s, Max(s))| > 0
    ensures FirstIndexOf(s, Max(s)) == IndexesOf(s, Max(s))[0]
  {
    var m := Max(s);
    var r := IndexesOf(s, m);
    var k := FirstIndexOf(s, m);
    assert k in r;
    var j :| 0 <= j < |r| && r[j] == k;
    assert r[0] <= r[j];
    assert s[r[0]] == m;
  }
}
