/**
 * The label vocabulary: a deduplicated, sorted label array and the map from
 * each label to its position in it.
 */
module Vocabulary {
  import opened Text

  predicate Distinct(s: seq<string>)
  {
    forall i, j :: 0 <= i < j < |s| ==> s[i] != s[j]
  }

  /** The comparator of the source's string sort does not put `b` before `a`. */
  predicate LessEq(a: string, b: string)
  {
    a == b || LexLess(a, b)
  }

  /** Ordered by the comparator of the source's string sort (ties allowed). */
  predicate Sorted(s: seq<string>)
  {
    forall i, j :: 0 <= i < j < |s| ==> LessEq(s[i], s[j])
  }

  predicate StrictlyAscending(s: seq<string>)
  {
    forall i, j :: 0 <= i < j < |s| ==> LexLess(s[i], s[j])
  }

  /** `stringArray` and `stringMap` pair up: the map sends each label to its position. */
  ghost predicate IsVocabulary(stringArray: seq<string>, stringMap: map<string, nat>)
  {
    && (forall k :: k in stringMap <==> k in stringArray)
    && (forall i :: 0 <= i < |stringArray| ==> stringMap[stringArray[i]] == i)
  }

  /** `[...new Set(s).values()]`: each string once, in order of first occurrence. */
  function Dedup(s: seq<string>): (r: seq<string>)
    ensures Distinct(r)
    ensures forall x :: x in r <==> x in s
  {
    if |s| == 0 then []
    else
      var p := Dedup(s[..|s| - 1]);
      assert forall x :: x in s <==> x in s[..|s| - 1] || x == s[|s| - 1];
      if s[|s| - 1] in p then p else p + [s[|s| - 1]]
  }

  /** The arrays one after another, in the order the nested loops visit their elements. */
  function Flatten(inputs: seq<seq<string>>): (r: seq<string>)
    ensures forall x :: x in r <==> exists i :: 0 <= i < |inputs| && x in inputs[i]
  {
    if |inputs| == 0 then []
    else
      var p := inputs[..|inputs| - 1];
      assert forall i :: 0 <= i < |p| ==> p[i] == inputs[i];
      Flatten(p) + inputs[|inputs| - 1]
  }

  /** One more string: it is kept exactly when it is new. */
  lemma DedupStep(s: seq<string>, x: string)
    ensures Dedup(s + [x]) == if x in Dedup(s) then Dedup(s) else Dedup(s) + [x]
  {
    assert (s + [x])[..|s|] == s;
  }

  /** One more array: its strings follow the earlier ones. */
  lemma FlattenStep(inputs: seq<seq<string>>, i: nat)
    requires i < |inputs|
    ensures Flatten(inputs[..i + 1]) == Flatten(inputs[..i]) + inputs[i]
  {
    assert inputs[..i + 1][..i] == inputs[..i];
  }

  lemma LessEqTransitive(a: string, b: string, c: string)
    requires LessEq(a, b) && LessEq(b, c)
    ensures LessEq(a, c)
  {
    if a != b && b != c {
      LexLessTransitive(a, b, c);
    }
  }

  /** Places `x` before the first element that the comparator does not put before it. */
  function Insert(x: string, s: seq<string>): (r: seq<string>)
    ensures multiset(r) == multiset(s) + multiset{x}
  {
    if |s| == 0 then [x]
    else if CompareStrings(x, s[0]) <= 0 then [x] + s
    else
      assert s == [s[0]] + s[1..];
      [s[0]] + Insert(x, s[1..])
  }

  lemma {:induction false} InsertSorted(x: string, s: seq<string>)
    requires Sorted(s)
    ensures Sorted(Insert(x, s))
  {
    if |s| == 0 {
    } else if CompareStrings(x, s[0]) <= 0 {
      forall j | 0 <= j < |s| ensures LessEq(x, s[j]) {
        if j > 0 { LessEqTransitive(x, s[0], s[j]); }
      }
    } else {
      var t := Insert(x, s[1..]);
      InsertSorted(x, s[1..]);
      assert s == [s[0]] + s[1..];
      LexLessStrictOrder(x, s[0]);
      forall j | 0 <= j < |t| ensures LessEq(s[0], t[j]) {
        assert t[j] in multiset(t);
        if t[j] != x {
          assert t[j] in multiset(s[1..]);
          var k :| 0 <= k < |s[1..]| && s[1..][k] == t[j];
          assert s[k + 1] == t[j];
        }
      }
      assert Insert(x, s) == [s[0]] + t;
    }
  }

  /** `sortStringArray`: the strings in the order of the source's comparator. */
  function SortStringArray(s: seq<string>): (r: seq<string>)
    ensures Sorted(r)
    ensures multiset(r) == multiset(s)
  {
    if |s| == 0 then []
    else
      assert s == [s[0]] + s[1..];
      var t := SortStringArray(s[1..]);
      InsertSorted(s[0], t);
      Insert(s[0], t)
  }

  /** Sorting a duplicate-free array leaves it strictly ascending. */
  lemma SortedDistinctIsStrictlyAscending(r: seq<string>)
    requires Sorted(r) && Distinct(r)
    ensures StrictlyAscending(r)
  {
  }

  lemma PermutationKeepsDistinct(s: seq<string>, r: seq<string>)
    requires Distinct(s) && multiset(r) == multiset(s)
    ensures Distinct(r)
  {
    forall i, j | 0 <= i < j < |r| ensures r[i] != r[j] {
      if r[i] == r[j] {
        var x := r[i];
        assert multiset(r)[x] >= 2 by {
          assert r == r[..i] + [x] + r[i + 1..j] + [x] + r[j + 1..];
        }
        DistinctCountsOne(s, x);
      }
    }
  }

  lemma {:induction false} DistinctCountsOne(s: seq<string>, x: string)
    requires Distinct(s)
    ensures multiset(s)[x] <= 1
  {
    if |s| > 0 {
      DistinctCountsOne(s[1..], x);
      assert s == [s[0]] + s[1..];
      assert s[0] !in s[1..];
    }
  }

  /** The sorted vocabulary of a label list: duplicate-free, then ordered. */
  function SortedLabels(s: seq<string>): (r: seq<string>)
    ensures StrictlyAscending(r)
    ensures forall x :: x in r <==> x in s
  {
    var d := Dedup(s);
    var r := SortStringArray(d);
    PermutationKeepsDistinct(d, r);
    forall x ensures x in r <==> x in d {
      assert x in r <==> x in multiset(r);
    }
    r
  }

  /** Two strictly ascending arrays with the same elements are equal. */
  lemma {:induction false} StrictlyAscendingUnique(a: seq<string>, b: seq<string>)
    requires StrictlyAscending(a) && StrictlyAscending(b)
    requires forall x :: x in a <==> x in b
    ensures a == b
  {
    assert |a| > 0 ==> a[0] in b;
    assert |b| > 0 ==> b[0] in a;
    if |a| > 0 {
      assert a[0] in a && b[0] in b;
      var i :| 0 <= i < |b| && b[i] == a[0];
      var j :| 0 <= j < |a| && a[j] == b[0];
      assert i == 0 || LexLess(b[0], a[0]);
      assert j == 0 || LexLess(a[0], b[0]);
      LexLessStrictOrder(a[0], b[0]);
      forall x ensures x in a[1..] <==> x in b[1..] {
        LexLessIrreflexive(x);
        assert x in a <==> x == a[0] || x in a[1..];
        assert x in b <==> x == b[0] || x in b[1..];
      }
      StrictlyAscendingUnique(a[1..], b[1..]);
      assert a == [a[0]] + a[1..] && b == [b[0]] + b[1..];
    }
  }

  /**
   * The vocabulary depends only on which labels occur, not on their order
   * or repetitions in the training set.
   */
  lemma SortedLabelsDependOnlyOnLabelSet(s: seq<string>, t: seq<string>)
    requires forall x :: x in s <==> x in t
    ensures SortedLabels(s) == SortedLabels(t)
  {
    StrictlyAscendingUnique(SortedLabels(s), SortedLabels(t));
  }

  /**
   * `buildStringIdNumberValueDictionaryFromUniqueStringArray`: each string is
   * mapped to the last position holding it, which for a duplicate-free array
   * is its only position.
   */
  method BuildStringIdNumberValueDictionaryFromUniqueStringArray(inputStringArray: seq<string>)
    returns (stringMap: map<string, nat>)
    ensures forall k :: k in stringMap <==> k in inputStringArray
    ensures forall k :: k in stringMap ==> stringMap[k] < |inputStringArray| && inputStringArray[stringMap[k]] == k
    ensures forall k :: k in stringMap ==>
      forall j :: stringMap[k] < j < |inputStringArray| ==> inputStringArray[j] != k
    ensures Distinct(inputStringArray) ==> IsVocabulary(inputStringArray, stringMap)
  {
    stringMap := map[];
    for index := 0 to |inputStringArray|
      invariant forall k :: k in stringMap <==> k in inputStringArray[..index]
      invariant forall k :: k in stringMap ==> stringMap[k] < index && inputStringArray[stringMap[k]] == k
      invariant forall k :: k in stringMap ==>
        forall j :: stringMap[k] < j < index ==> inputStringArray[j] != k
    {
      assert inputStringArray[..index + 1] == inputStringArray[..index] + [inputStringArray[index]];
      stringMap := stringMap[inputStringArray[index] := index];
    }
    assert inputStringArray[..|inputStringArray|] == inputStringArray;
  }

  /**
   * `buildStringIdNumberValueDictionaryFromStringArray`: the labels without
   * duplicates, strictly ascending, with the map from label to position.
   */
  method BuildStringIdNumberValueDictionaryFromStringArray(inputStringArray: seq<string>)
    returns (stringArray: seq<string>, stringMap: map<string, nat>)
    ensures stringArray == SortedLabels(inputStringArray)
    ensures StrictlyAscending(stringArray)
    ensures forall x :: x in stringArray <==> x in inputStringArray
    ensures IsVocabulary(stringArray, stringMap)
  {
    var stringSet := Dedup(inputStringArray);
    stringArray := SortStringArray(stringSet);
    PermutationKeepsDistinct(stringSet, stringArray);
    stringMap := BuildStringIdNumberValueDictionaryFromUniqueStringArray(stringArray);
    assert stringArray == SortedLabels(inputStringArray);
  }

  /**
   * `buildStringIdNumberValueDictionaryFromStringArrays`: the same vocabulary
   * as for all the arrays laid end to end.
   */
  method BuildStringIdNumberValueDictionaryFromStringArrays(inputStringArrays: seq<seq<string>>)
    returns (stringArray: seq<string>, stringMap: map<string, nat>)
    ensures stringArray == SortedLabels(Flatten(inputStringArrays))
    ensures StrictlyAscending(stringArray)
    ensures forall x :: x in stringArray <==> exists i :: 0 <= i < |inputStringArrays| && x in inputStringArrays[i]
    ensures IsVocabulary(stringArray, stringMap)
  {
    var stringSet: seq<string> := [];
    for i := 0 to |inputStringArrays|
      invariant stringSet == Dedup(Flatten(inputStringArrays[..i]))
    {
      stringSet := AddToStringSet(stringSet, Flatten(inputStringArrays[..i]), inputStringArrays[i]);
      FlattenStep(inputStringArrays, i);
    }
    assert inputStringArrays[..|inputStringArrays|] == inputStringArrays;
    stringArray := SortStringArray(stringSet);
    PermutationKeepsDistinct(stringSet, stringArray);
    stringMap := BuildStringIdNumberValueDictionaryFromUniqueStringArray(stringArray);
    assert stringArray == SortedLabels(Flatten(inputStringArrays));
  }

  /** The inner loop of `buildStringIdNumberValueDictionaryFromStringArrays`: `stringSet.add` for each element in turn. */
  method AddToStringSet(stringSet: seq<string>, ghost seen: seq<string>, elementStringArray: seq<string>)
    returns (r: seq<string>)
    requires stringSet == Dedup(seen)
    ensures r == Dedup(seen + elementStringArray)
  {
    r := stringSet;
    AppendSlice(seen, elementStringArray, 0);
    for j := 0 to |elementStringArray|
      invariant r == Dedup(seen + elementStringArray[..j])
    {
      AppendSlice(seen, elementStringArray, j + 1);
      DedupStep(seen + elementStringArray[..j], elementStringArray[j]);
      if elementStringArray[j] !in r {
        r := r + [elementStringArray[j]];
      }
    }
    AppendSlice(seen, elementStringArray, |elementStringArray|);
  }

  lemma AppendSlice(a: seq<string>, b: seq<string>, j: nat)
    requires j <= |b|
    ensures j == 0 ==> a + b[..j] == a
    ensures j > 0 ==> a + b[..j] == a + b[..j - 1] + [b[j - 1]]
    ensures j == |b| ==> a + b[..j] == a + b
  {
    if j > 0 {
      assert b[..j] == b[..j - 1] + [b[j - 1]];
    }
  }

  /** Three labels in ascending order, given as `[b, a, a, c]`, give the vocabulary `[a, b, c]`. */
  lemma SortedLabelsExample(a: string, b: string, c: string)
    requires LexLess(a, b) && LexLess(b, c)
    ensures SortedLabels([b, a, a, c]) == [a, b, c]
  {
    var input := [b, a, a, c];
    var expected := [a, b, c];
    var r := SortedLabels(input);
    LexLessTransitive(a, b, c);
    assert StrictlyAscending(expected);
    forall x ensures x in r <==> x in expected {
      assert x in input <==> x == a || x == b || x == c;
      assert x in expected <==> x == a || x == b || x == c;
    }
    StrictlyAscendingUnique(r, expected);
  }
}
