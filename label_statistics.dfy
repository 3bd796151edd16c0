/**
 * Statistics over an utterance/label dictionary: the label-to-utterances
 * dictionary obtained by reversing it, the number of labels it holds, and
 * the number of utterances per number of labels.
 */
module LabelStatistics {
  import opened Vocabulary
  import opened LabelTables

  /** Every listed key has an entry. */
  predicate KeysPresent(d: Dictionary)
  {
    forall k :: k in d.keys ==> k in d.entries
  }

  function SumLengths(entries: map<string, seq<string>>, keys: seq<string>): nat
    requires forall k :: k in keys ==> k in entries
  {
    if |keys| == 0 then 0
    else SumLengths(entries, keys[..|keys| - 1]) + |entries[keys[|keys| - 1]]|
  }

  /** `countMapValues`: the total length of the dictionary's arrays. */
  function CountMapValues(d: Dictionary): nat
    requires KeysPresent(d)
  {
    SumLengths(d.entries, d.keys)
  }

  /** Replacing one key's array changes the total by the change in that array's length. */
  lemma {:induction false} SumLengthsUpdate(entries: map<string, seq<string>>, keys: seq<string>, e: string, v: seq<string>)
    requires forall k :: k in keys ==> k in entries
    requires Distinct(keys)
    ensures e in keys ==> SumLengths(entries[e := v], keys) + |entries[e]| == SumLengths(entries, keys) + |v|
    ensures e !in keys ==> SumLengths(entries[e := v], keys) == SumLengths(entries, keys)
  {
    if |keys| > 0 {
      var p := keys[..|keys| - 1];
      var last := keys[|keys| - 1];
      assert Distinct(p);
      assert forall k :: k in p ==> k in entries by {
        forall k | k in p ensures k in entries {
          assert k in keys;
        }
      }
      SumLengthsUpdate(entries, p, e, v);
      assert SumLengths(entries[e := v], keys) == SumLengths(entries[e := v], p) + |entries[e := v][last]|;
      assert SumLengths(entries, keys) == SumLengths(entries, p) + |entries[last]|;
      if last == e {
        assert e !in p by {
          forall j | 0 <= j < |p| ensures p[j] != e {
            assert p[j] == keys[j];
          }
        }
      } else {
        assert e in keys <==> e in p by {
          assert keys == p + [last];
        }
      }
    }
  }

  /** `reversed[element].push(key)`, or `reversed[element] = [key]` for an element not yet seen. */
  function PushKey(d: Dictionary, element: string, key: string): Dictionary
  {
    if element in d.entries then Dictionary(d.keys, d.entries[element := d.entries[element] + [key]])
    else Dictionary(d.keys + [element], d.entries[element := [key]])
  }

  /** The inner loop of `reverseUniqueKeyedArray`: `key` pushed under each element in turn. */
  function PushAll(d: Dictionary, elements: seq<string>, key: string): Dictionary
  {
    if |elements| == 0 then d
    else PushKey(PushAll(d, elements[..|elements| - 1], key), elements[|elements| - 1], key)
  }

  /** The outer loop of `reverseUniqueKeyedArray` over `keys`, skipping the empty key. */
  function Reverse(input: Dictionary, keys: seq<string>): Dictionary
    requires forall k :: k in keys ==> k in input.entries
  {
    if |keys| == 0 then Dictionary([], map[])
    else
      var reversed := Reverse(input, keys[..|keys| - 1]);
      var key := keys[|keys| - 1];
      if key == "" then reversed else PushAll(reversed, input.entries[key], key)
  }

  /** `reverseUniqueKeyedArray`: a dictionary from each element to the keys whose arrays hold it. */
  method ReverseUniqueKeyedArray(input: Dictionary) returns (reversed: Dictionary)
    requires KeysPresent(input)
    ensures reversed == Reverse(input, input.keys)
  {
    reversed := Dictionary([], map[]);
    for i := 0 to |input.keys|
      invariant reversed == Reverse(input, input.keys[..i])
    {
      assert input.keys[..i + 1][..i] == input.keys[..i];
      var key := input.keys[i];
      if key != "" {
        var keyedArray := input.entries[key];
        ghost var before := reversed;
        for j := 0 to |keyedArray|
          invariant reversed == PushAll(before, keyedArray[..j], key)
        {
          assert keyedArray[..j + 1][..j] == keyedArray[..j];
          var keyedArrayElement := keyedArray[j];
          if keyedArrayElement in reversed.entries {
            reversed := Dictionary(reversed.keys, reversed.entries[keyedArrayElement := reversed.entries[keyedArrayElement] + [key]]);
          } else {
            reversed := Dictionary(reversed.keys + [keyedArrayElement], reversed.entries[keyedArrayElement := [key]]);
          }
        }
        assert keyedArray[..|keyedArray|] == keyedArray;
      }
    }
    assert input.keys[..|input.keys|] == input.keys;
  }

  /** Pushing one key keeps the dictionary well formed and adds one to its count. */
  lemma PushKeyCount(d: Dictionary, element: string, key: string)
    requires WellFormed(d)
    ensures WellFormed(PushKey(d, element, key)) && KeysPresent(PushKey(d, element, key))
    ensures CountMapValues(PushKey(d, element, key)) == CountMapValues(d) + 1
  {
    var r := PushKey(d, element, key);
    SumLengthsUpdate(d.entries, d.keys, element, r.entries[element]);
    if element !in d.entries {
      assert Distinct(d.keys + [element]);
      assert (d.keys + [element])[..|d.keys|] == d.keys;
    }
  }

  lemma {:induction false} PushAllCount(d: Dictionary, elements: seq<string>, key: string)
    requires WellFormed(d)
    ensures WellFormed(PushAll(d, elements, key)) && KeysPresent(PushAll(d, elements, key))
    ensures CountMapValues(PushAll(d, elements, key)) == CountMapValues(d) + |elements|
  {
    if |elements| > 0 {
      var p := elements[..|elements| - 1];
      PushAllCount(d, p, key);
      PushKeyCount(PushAll(d, p, key), elements[|elements| - 1], key);
    }
  }

  lemma {:induction false} ReverseCount(input: Dictionary, keys: seq<string>)
    requires forall k :: k in keys ==> k in input.entries
    requires Distinct(keys)
    ensures WellFormed(Reverse(input, keys)) && KeysPresent(Reverse(input, keys))
    ensures CountMapValues(Reverse(input, keys)) + (if "" in keys then |input.entries[""]| else 0)
         == SumLengths(input.entries, keys)
  {
    if |keys| > 0 {
      var p := keys[..|keys| - 1];
      var key := keys[|keys| - 1];
      assert Distinct(p);
      assert keys == p + [key];
      ReverseCount(input, p);
      if key != "" {
        PushAllCount(Reverse(input, p), input.entries[key], key);
      }
    }
  }

  /**
   * Reversing keeps every label occurrence except those under the empty
   * utterance: the counts before and after differ by exactly that array.
   */
  lemma ReverseUniqueKeyedArrayCount(input: Dictionary)
    requires WellFormed(input)
    ensures WellFormed(Reverse(input, input.keys)) && KeysPresent(Reverse(input, input.keys))
    ensures CountMapValues(Reverse(input, input.keys)) + (if "" in input.entries then |input.entries[""]| else 0)
         == CountMapValues(input)
  {
    ReverseCount(input, input.keys);
  }

  lemma {:induction false} PushAllMembership(d: Dictionary, elements: seq<string>, key: string, e: string, k: string)
    ensures (e in PushAll(d, elements, key).entries && k in PushAll(d, elements, key).entries[e])
        <==> (e in d.entries && k in d.entries[e]) || (k == key && e in elements)
  {
    if |elements| > 0 {
      var p := elements[..|elements| - 1];
      PushAllMembership(d, p, key, e, k);
      assert elements == p + [elements[|elements| - 1]];
    }
  }

  lemma {:induction false} ReverseMembership(input: Dictionary, keys: seq<string>, e: string, k: string)
    requires forall k :: k in keys ==> k in input.entries
    ensures (e in Reverse(input, keys).entries && k in Reverse(input, keys).entries[e])
        <==> (k in keys && k != "" && e in input.entries[k])
  {
    if |keys| > 0 {
      var p := keys[..|keys| - 1];
      var key := keys[|keys| - 1];
      assert keys == p + [key];
      ReverseMembership(input, p, e, k);
      if key != "" {
        PushAllMembership(Reverse(input, p), input.entries[key], key, e, k);
      }
    }
  }

  /**
   * The reversed dictionary relates exactly the pairs of the input: element
   * `e` lists utterance `u` if and only if `u` is a non-empty utterance
   * whose array holds `e`.
   */
  lemma ReverseUniqueKeyedArrayMembership(input: Dictionary, e: string, u: string)
    requires KeysPresent(input)
    ensures (e in Reverse(input, input.keys).entries && u in Reverse(input, input.keys).entries[e])
        <==> (u in input.entries && u in input.keys && u != "" && e in input.entries[u])
  {
    ReverseMembership(input, input.keys, e, u);
  }

  /** Every array of `d` is free of duplicates. */
  ghost predicate ArraysDistinct(d: Dictionary)
  {
    forall e :: e in d.entries ==> Distinct(d.entries[e])
  }

  lemma {:induction false} PushAllDistinct(d: Dictionary, elements: seq<string>, key: string)
    requires ArraysDistinct(d) && Distinct(elements)
    requires forall e :: e in d.entries ==> key !in d.entries[e]
    ensures ArraysDistinct(PushAll(d, elements, key))
  {
    if |elements| > 0 {
      var p := elements[..|elements| - 1];
      var last := elements[|elements| - 1];
      var mid := PushAll(d, p, key);
      assert Distinct(p);
      PushAllDistinct(d, p, key);
      PushAllMembership(d, p, key, last, key);
      assert last !in p;
      if last in mid.entries {
        assert Distinct(mid.entries[last] + [key]);
      }
    }
  }

  lemma {:induction false} ReverseDistinct(input: Dictionary, keys: seq<string>)
    requires forall k :: k in keys ==> k in input.entries
    requires Distinct(keys)
    requires forall k :: k in keys ==> Distinct(input.entries[k])
    ensures ArraysDistinct(Reverse(input, keys))
  {
    if |keys| > 0 {
      var p := keys[..|keys| - 1];
      var key := keys[|keys| - 1];
      assert Distinct(p);
      ReverseDistinct(input, p);
      if key != "" {
        var mid := Reverse(input, p);
        forall e | e in mid.entries ensures key !in mid.entries[e] {
          ReverseMembership(input, p, e, key);
        }
        PushAllDistinct(mid, input.entries[key], key);
      }
    }
  }

  /**
   * When every utterance's label array is free of duplicates, so is every
   * label's utterance array of the reversed dictionary.
   */
  lemma ReverseUniqueKeyedArrayDistinct(input: Dictionary)
    requires WellFormed(input)
    requires forall k :: k in input.entries ==> Distinct(input.entries[k])
    ensures ArraysDistinct(Reverse(input, input.keys))
  {
    ReverseDistinct(input, input.keys);
  }

  // ---- Utterance statistics: utterances per number of labels.

  /** The number of utterances among `keys` per number of labels. */
  function LabelCountHistogram(d: Dictionary, keys: seq<string>): map<nat, nat>
    requires forall k :: k in keys ==> k in d.entries
  {
    if |keys| == 0 then map[]
    else
      var histogram := LabelCountHistogram(d, keys[..|keys| - 1]);
      var labelCount := |d.entries[keys[|keys| - 1]]|;
      histogram[labelCount := (if labelCount in histogram then histogram[labelCount] else 0) + 1]
  }

  /** The utterances among `keys` with exactly `labelCount` labels. */
  ghost function UtterancesWith(d: Dictionary, keys: seq<string>, labelCount: nat): set<string>
  {
    set k | k in keys && k in d.entries && |d.entries[k]| == labelCount
  }

  /** The histogram counts, for each number of labels, the utterances with that many labels. */
  lemma {:induction false} LabelCountHistogramCounts(d: Dictionary, keys: seq<string>, labelCount: nat)
    requires forall k :: k in keys ==> k in d.entries
    requires Distinct(keys)
    ensures labelCount in LabelCountHistogram(d, keys) <==> |UtterancesWith(d, keys, labelCount)| > 0
    ensures labelCount in LabelCountHistogram(d, keys) ==>
      LabelCountHistogram(d, keys)[labelCount] == |UtterancesWith(d, keys, labelCount)|
  {
    if |keys| > 0 {
      var p := keys[..|keys| - 1];
      var last := keys[|keys| - 1];
      var h := LabelCountHistogram(d, p);
      var c := |d.entries[last]|;
      assert LabelCountHistogram(d, keys) == h[c := (if c in h then h[c] else 0) + 1];
      UtterancesWithStep(d, keys, labelCount);
      LabelCountHistogramCounts(d, p, labelCount);
      if |UtterancesWith(d, p, labelCount)| == 0 {
        assert UtterancesWith(d, p, labelCount) == {};
      }
    }
  }

  /** The last utterance joins the set exactly when it has `labelCount` labels; it was not there before. */
  lemma UtterancesWithStep(d: Dictionary, keys: seq<string>, labelCount: nat)
    requires |keys| > 0 && Distinct(keys)
    requires forall k :: k in keys ==> k in d.entries
    ensures Distinct(keys[..|keys| - 1])
    ensures keys[|keys| - 1] !in UtterancesWith(d, keys[..|keys| - 1], labelCount)
    ensures UtterancesWith(d, keys, labelCount)
         == UtterancesWith(d, keys[..|keys| - 1], labelCount)
            + (if |d.entries[keys[|keys| - 1]]| == labelCount then {keys[|keys| - 1]} else {})
  {
    var p := keys[..|keys| - 1];
    var last := keys[|keys| - 1];
    assert keys == p + [last];
    forall j | 0 <= j < |p| ensures p[j] != last {
      assert p[j] == keys[j];
    }
  }

  /** A histogram row: a number of labels and how many utterances have that many. */
  datatype StatisticsRow = StatisticsRow(labelCount: nat, utteranceCount: nat)

  /**
   * The histogram's entries with a number of labels below `bound`, in
   * ascending order, as `Object.entries` lists an object's integer keys.
   */
  function RowsBelow(histogram: map<nat, nat>, bound: nat): (r: seq<StatisticsRow>)
    ensures forall i :: 0 <= i < |r| ==> r[i].labelCount < bound
  {
    if bound == 0 then []
    else
      var below := RowsBelow(histogram, bound - 1);
      if bound - 1 in histogram then below + [StatisticsRow(bound - 1, histogram[bound - 1])] else below
  }

  lemma {:induction false} RowsBelowContents(histogram: map<nat, nat>, bound: nat)
    ensures forall i, j :: 0 <= i < j < |RowsBelow(histogram, bound)| ==>
      RowsBelow(histogram, bound)[i].labelCount < RowsBelow(histogram, bound)[j].labelCount
    ensures forall row :: row in RowsBelow(histogram, bound) <==>
      row.labelCount < bound && row.labelCount in histogram && histogram[row.labelCount] == row.utteranceCount
  {
    if bound > 0 {
      RowsBelowContents(histogram, bound - 1);
    }
  }

  /** The largest number of labels of any utterance among `keys`. */
  function MaxLabelCount(d: Dictionary, keys: seq<string>): (r: nat)
    requires forall k :: k in keys ==> k in d.entries
    ensures forall k :: k in keys ==> |d.entries[k]| <= r
  {
    if |keys| == 0 then 0
    else
      var m := MaxLabelCount(d, keys[..|keys| - 1]);
      var c := |d.entries[keys[|keys| - 1]]|;
      assert forall k :: k in keys ==> k in keys[..|keys| - 1] || k == keys[|keys| - 1];
      if c > m then c else m
  }

  lemma {:induction false} HistogramKeysBelow(d: Dictionary, keys: seq<string>, bound: nat)
    requires forall k :: k in keys ==> k in d.entries
    requires forall k :: k in keys ==> |d.entries[k]| < bound
    ensures forall c :: c in LabelCountHistogram(d, keys) ==> c < bound
  {
    if |keys| > 0 {
      HistogramKeysBelow(d, keys[..|keys| - 1], bound);
    }
  }

  /** Every stored count below `bound` added up. */
  function SumBelow(histogram: map<nat, nat>, bound: nat): nat
  {
    if bound == 0 then 0
    else SumBelow(histogram, bound - 1) + (if bound - 1 in histogram then histogram[bound - 1] else 0)
  }

  lemma {:induction false} SumBelowUpdate(histogram: map<nat, nat>, bound: nat, c: nat, v: nat)
    ensures c < bound ==>
      SumBelow(histogram[c := v], bound) + (if c in histogram then histogram[c] else 0) == SumBelow(histogram, bound) + v
    ensures c >= bound ==> SumBelow(histogram[c := v], bound) == SumBelow(histogram, bound)
  {
    if bound > 0 {
      SumBelowUpdate(histogram, bound - 1, c, v);
    }
  }

  lemma {:induction false} SumBelowEmpty(bound: nat)
    ensures SumBelow(map[], bound) == 0
  {
    if bound > 0 {
      SumBelowEmpty(bound - 1);
    }
  }

  lemma {:induction false} HistogramSum(d: Dictionary, keys: seq<string>, bound: nat)
    requires forall k :: k in keys ==> k in d.entries
    requires forall k :: k in keys ==> |d.entries[k]| < bound
    ensures SumBelow(LabelCountHistogram(d, keys), bound) == |keys|
  {
    if |keys| > 0 {
      var p := keys[..|keys| - 1];
      var h := LabelCountHistogram(d, p);
      var last := keys[|keys| - 1];
      assert last in keys;
      var c := |d.entries[last]|;
      assert c < bound;
      assert forall k :: k in p ==> k in keys;
      HistogramSum(d, p, bound);
      var v := (if c in h then h[c] else 0) + 1;
      SumBelowUpdate(h, bound, c, v);
      assert LabelCountHistogram(d, keys) == h[c := v];
    } else {
      SumBelowEmpty(bound);
    }
  }

  /** The sum of the rows' utterance counts. */
  function SumCounts(rows: seq<StatisticsRow>): nat
  {
    if |rows| == 0 then 0 else SumCounts(rows[..|rows| - 1]) + rows[|rows| - 1].utteranceCount
  }

  lemma {:induction false} SumCountsRowsBelow(histogram: map<nat, nat>, bound: nat)
    ensures SumCounts(RowsBelow(histogram, bound)) == SumBelow(histogram, bound)
  {
    if bound > 0 {
      SumCountsRowsBelow(histogram, bound - 1);
      var p := RowsBelow(histogram, bound - 1);
      if bound - 1 in histogram {
        assert (p + [StatisticsRow(bound - 1, histogram[bound - 1])])[..|p|] == p;
      }
    }
  }

  lemma {:induction false} SumCountsAppend(a: seq<StatisticsRow>, b: seq<StatisticsRow>)
    ensures SumCounts(a + b) == SumCounts(a) + SumCounts(b)
  {
    if |b| == 0 {
      assert a + b == a;
    } else {
      var p := b[..|b| - 1];
      SumCountsAppend(a, p);
      assert (a + b)[..|a + b| - 1] == a + p;
    }
  }

  /**
   * The comparator of the statistics sort (-1 when the first row has the
   * larger count, 1 when it has the smaller, 0 on equal counts), as
   * insertion: `row` goes after every row with at least its count, so rows
   * with equal counts keep their order.
   */
  function InsertByCount(row: StatisticsRow, rows: seq<StatisticsRow>): (r: seq<StatisticsRow>)
    ensures multiset(r) == multiset(rows) + multiset{row}
  {
    if |rows| == 0 then [row]
    else if rows[0].utteranceCount >= row.utteranceCount then
      assert rows == [rows[0]] + rows[1..];
      [rows[0]] + InsertByCount(row, rows[1..])
    else [row] + rows
  }

  /** A stable sort by descending utterance count. */
  function SortByCountDescending(rows: seq<StatisticsRow>): (r: seq<StatisticsRow>)
    ensures multiset(r) == multiset(rows)
  {
    if |rows| == 0 then []
    else
      assert rows == rows[..|rows| - 1] + [rows[|rows| - 1]];
      InsertByCount(rows[|rows| - 1], SortByCountDescending(rows[..|rows| - 1]))
  }

  /** `a` comes before `b`: more utterances, or as many and fewer labels. */
  predicate RowBefore(a: StatisticsRow, b: StatisticsRow)
  {
    a.utteranceCount > b.utteranceCount || (a.utteranceCount == b.utteranceCount && a.labelCount < b.labelCount)
  }

  predicate RowsOrdered(rows: seq<StatisticsRow>)
  {
    forall i, j :: 0 <= i < j < |rows| ==> RowBefore(rows[i], rows[j])
  }

  lemma {:induction false} InsertByCountOrdered(row: StatisticsRow, rows: seq<StatisticsRow>)
    requires RowsOrdered(rows)
    requires forall i :: 0 <= i < |rows| ==> rows[i].labelCount < row.labelCount
    ensures RowsOrdered(InsertByCount(row, rows))
  {
    if |rows| > 0 && rows[0].utteranceCount >= row.utteranceCount {
      var rest := InsertByCount(row, rows[1..]);
      InsertByCountOrdered(row, rows[1..]);
      forall x | x in rest ensures RowBefore(rows[0], x) {
        assert x in multiset(rest);
        if x != row {
          assert x in multiset(rows[1..]);
          var j :| 0 <= j < |rows[1..]| && rows[1..][j] == x;
          assert rows[j + 1] == x;
        }
      }
    }
  }

  lemma {:induction false} SortByCountDescendingOrdered(rows: seq<StatisticsRow>)
    requires forall i, j :: 0 <= i < j < |rows| ==> rows[i].labelCount < rows[j].labelCount
    ensures RowsOrdered(SortByCountDescending(rows))
  {
    if |rows| > 0 {
      var p := rows[..|rows| - 1];
      var last := rows[|rows| - 1];
      SortByCountDescendingOrdered(p);
      var sorted := SortByCountDescending(p);
      forall i | 0 <= i < |sorted| ensures sorted[i].labelCount < last.labelCount {
        assert sorted[i] in multiset(p);
        var j :| 0 <= j < |p| && p[j] == sorted[i];
      }
      InsertByCountOrdered(last, sorted);
    }
  }

  lemma {:induction false} InsertByCountSum(row: StatisticsRow, rows: seq<StatisticsRow>)
    ensures SumCounts(InsertByCount(row, rows)) == SumCounts(rows) + row.utteranceCount
  {
    if |rows| == 0 {
      assert [row][..0] == [];
    } else if rows[0].utteranceCount >= row.utteranceCount {
      InsertByCountSum(row, rows[1..]);
      SumCountsAppend([rows[0]], InsertByCount(row, rows[1..]));
      SumCountsAppend([rows[0]], rows[1..]);
      assert [rows[0]] + rows[1..] == rows;
      assert [rows[0]][..0] == [];
    } else {
      SumCountsAppend([row], rows);
      assert [row][..0] == [];
    }
  }

  lemma {:induction false} SortByCountDescendingSum(rows: seq<StatisticsRow>)
    ensures SumCounts(SortByCountDescending(rows)) == SumCounts(rows)
  {
    if |rows| > 0 {
      var p := rows[..|rows| - 1];
      SortByCountDescendingSum(p);
      InsertByCountSum(rows[|rows| - 1], SortByCountDescending(p));
    }
  }

  /** The integer part of `generateUtteranceStatisticsAndHtmlTable`: the sorted rows and their total. */
  datatype UtteranceStatistics = UtteranceStatistics(rows: seq<StatisticsRow>, total: nat)

  function GenerateUtteranceStatistics(d: Dictionary): UtteranceStatistics
    requires KeysPresent(d)
  {
    var rows := SortByCountDescending(AscendingRows(d));
    UtteranceStatistics(rows, SumCounts(rows))
  }

  /** The rows before sorting: the histogram's entries in ascending order of label count. */
  function AscendingRows(d: Dictionary): seq<StatisticsRow>
    requires KeysPresent(d)
  {
    RowsBelow(LabelCountHistogram(d, d.keys), MaxLabelCount(d, d.keys) + 1)
  }

  lemma AscendingRowsContents(d: Dictionary)
    requires WellFormed(d)
    ensures KeysPresent(d)
    ensures forall i, j :: 0 <= i < j < |AscendingRows(d)| ==> AscendingRows(d)[i].labelCount < AscendingRows(d)[j].labelCount
    ensures forall row :: row in AscendingRows(d) ==> row.utteranceCount == |UtterancesWith(d, d.keys, row.labelCount)| > 0
    ensures forall u :: u in d.entries ==> StatisticsRow(|d.entries[u]|, |UtterancesWith(d, d.keys, |d.entries[u]|)|) in AscendingRows(d)
    ensures SumCounts(AscendingRows(d)) == |d.keys|
  {
    var histogram := LabelCountHistogram(d, d.keys);
    var bound := MaxLabelCount(d, d.keys) + 1;
    RowsBelowContents(histogram, bound);
    HistogramKeysBelow(d, d.keys, bound);
    HistogramSum(d, d.keys, bound);
    SumCountsRowsBelow(histogram, bound);
    AscendingRowsCounts(d);
    AscendingRowsCover(d);
  }

  /** Every unsorted row counts the utterances with its number of labels, and there is at least one. */
  lemma AscendingRowsCounts(d: Dictionary)
    requires WellFormed(d)
    ensures KeysPresent(d)
    ensures forall row :: row in AscendingRows(d) ==> row.utteranceCount == |UtterancesWith(d, d.keys, row.labelCount)| > 0
  {
    var histogram := LabelCountHistogram(d, d.keys);
    var bound := MaxLabelCount(d, d.keys) + 1;
    RowsBelowContents(histogram, bound);
    forall row | row in AscendingRows(d) ensures row.utteranceCount == |UtterancesWith(d, d.keys, row.labelCount)| > 0 {
      LabelCountHistogramCounts(d, d.keys, row.labelCount);
    }
  }

  /** Every utterance's number of labels has its row. */
  lemma AscendingRowsCover(d: Dictionary)
    requires WellFormed(d)
    ensures KeysPresent(d)
    ensures forall u :: u in d.entries ==> StatisticsRow(|d.entries[u]|, |UtterancesWith(d, d.keys, |d.entries[u]|)|) in AscendingRows(d)
  {
    var histogram := LabelCountHistogram(d, d.keys);
    var bound := MaxLabelCount(d, d.keys) + 1;
    RowsBelowContents(histogram, bound);
    forall u | u in d.entries
      ensures StatisticsRow(|d.entries[u]|, |UtterancesWith(d, d.keys, |d.entries[u]|)|) in AscendingRows(d)
    {
      var c := |d.entries[u]|;
      assert u in d.keys;
      assert u in UtterancesWith(d, d.keys, c);
      LabelCountHistogramCounts(d, d.keys, c);
    }
  }

  /**
   * The statistics rows are the histogram's entries, ordered by descending
   * utterance count and, for equal counts, by ascending number of labels;
   * each row counts the utterances with that many labels; the total is the
   * number of utterances.
   */
  lemma GenerateUtteranceStatisticsCorrect(d: Dictionary)
    requires WellFormed(d)
    ensures KeysPresent(d)
    ensures var s := GenerateUtteranceStatistics(d);
      && RowsOrdered(s.rows)
      && (forall row :: row in s.rows ==>
            row.utteranceCount == |UtterancesWith(d, d.keys, row.labelCount)| > 0)
      && (forall u :: u in d.entries ==> StatisticsRow(|d.entries[u]|, |UtterancesWith(d, d.keys, |d.entries[u]|)|) in s.rows)
      && s.total == |d.keys|
  {
    var ascending := AscendingRows(d);
    var s := GenerateUtteranceStatistics(d);
    AscendingRowsContents(d);
    assert s.rows == SortByCountDescending(ascending);
    SortByCountDescendingOrdered(ascending);
    SortByCountDescendingSum(ascending);
    forall row | row in s.rows ensures row in ascending {
      assert row in multiset(s.rows);
    }
    forall row | row in ascending ensures row in s.rows {
      assert row in multiset(ascending);
    }
  }
}
