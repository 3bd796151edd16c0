/**
 * The utterance/label tables: a dictionary from utterance to its labels in
 * the order first seen, and a map from utterance to the labels it was given
 * more than once. Both belong to the caller and are updated in place.
 */
module LabelTables {
  import opened Wrappers
  import opened Text
  import opened Vocabulary

  /**
   * A plain object from utterance to label array: its keys in insertion
   * order, and the entries.
   */
  datatype Dictionary = Dictionary(keys: seq<string>, entries: map<string, seq<string>>)

  ghost predicate WellFormed(d: Dictionary)
  {
    && Distinct(d.keys)
    && (forall k :: k in d.entries <==> k in d.keys)
  }

  /** The label dictionary together with its duplicates map. */
  datatype Tables = Tables(labels: Dictionary, duplicates: map<string, set<string>>)

  /**
   * The string-named properties a `Map` object has through `Map.prototype`
   * and `Object.prototype`: for exactly these keys `key in map` is true.
   */
  const MapPropertyNames: set<string> := {
    "constructor", "get", "set", "has", "delete", "clear", "entries", "forEach", "keys", "size", "values",
    "__defineGetter__", "__defineSetter__", "hasOwnProperty", "__lookupGetter__", "__lookupSetter__",
    "isPrototypeOf", "propertyIsEnumerable", "toString", "valueOf", "__proto__", "toLocaleString"
  }

  /**
   * `insertStringPairToStringIdStringSetNativeMap` on the map's entries. Its
   * `key in map` test looks at the Map object's properties, not its entries,
   * so an ordinary key always gets a fresh `{value}`, replacing an earlier
   * set; only a key naming a property adds to the set already stored.
   */
  function InsertStringPair(m: map<string, set<string>>, key: string, value: string): (r: map<string, set<string>>)
    ensures r.Keys == m.Keys + {key}
    ensures forall k :: k in m && k != key ==> r[k] == m[k]
    ensures key !in MapPropertyNames ==> r[key] == {value}
    ensures key in MapPropertyNames ==> r[key] == (if key in m then m[key] else {}) + {value}
  {
    if key in MapPropertyNames then
      var stringSet := if key in m then m[key] else {};
      m[key := stringSet + {value}]
    else
      m[key := {value}]
  }

  /**
   * `addToMultiLabelUtteranceStructure`: an unseen utterance gets `[label]`;
   * a new label for a known utterance goes at the end of its array; a label
   * already there leaves the array alone and the pair goes to the duplicates.
   */
  function AddLabel(t: Tables, utterance: string, labelName: string): (r: Tables)
    ensures utterance !in t.labels.entries ==>
      && r.labels.keys == t.labels.keys + [utterance]
      && r.labels.entries == t.labels.entries[utterance := [labelName]]
      && r.duplicates == t.duplicates
    ensures utterance in t.labels.entries && labelName !in t.labels.entries[utterance] ==>
      && r.labels.keys == t.labels.keys
      && r.labels.entries == t.labels.entries[utterance := t.labels.entries[utterance] + [labelName]]
      && r.duplicates == t.duplicates
    ensures utterance in t.labels.entries && labelName in t.labels.entries[utterance] ==>
      && r.labels == t.labels
      && r.duplicates == InsertStringPair(t.duplicates, utterance, labelName)
  {
    if utterance in t.labels.entries then
      var existingLabels := t.labels.entries[utterance];
      if labelName !in existingLabels then
        Tables(Dictionary(t.labels.keys, t.labels.entries[utterance := existingLabels + [labelName]]), t.duplicates)
      else
        Tables(t.labels, InsertStringPair(t.duplicates, utterance, labelName))
    else
      Tables(Dictionary(t.labels.keys + [utterance], t.labels.entries[utterance := [labelName]]), t.duplicates)
  }

  /** `for (const label of labelArray)`: each label, trimmed, added in turn. */
  function AddLabels(t: Tables, utterance: string, labelArray: seq<string>): Tables
  {
    if |labelArray| == 0 then t
    else AddLabel(AddLabels(t, utterance, labelArray[..|labelArray| - 1]), utterance, Trim(labelArray[|labelArray| - 1]))
  }

  /**
   * The table invariant: keys listed once each, every utterance has a
   * non-empty duplicate-free label array, and every duplicate pair names a
   * recorded utterance and one of its labels.
   */
  ghost predicate Consistent(t: Tables)
  {
    && WellFormed(t.labels)
    && (forall u :: u in t.labels.entries ==> |t.labels.entries[u]| > 0 && Distinct(t.labels.entries[u]))
    && (forall u :: u in t.duplicates ==> u in t.labels.entries)
    && (forall u, l :: u in t.duplicates && l in t.duplicates[u] ==> l in t.labels.entries[u])
  }

  /** `r` holds everything `t` held: same utterances or more, each array extended at its end. */
  ghost predicate Grows(t: Tables, r: Tables)
  {
    forall u :: u in t.labels.entries ==> u in r.labels.entries && t.labels.entries[u] <= r.labels.entries[u]
  }

  /** Adding a label only ever adds: the label ends up in the utterance's array. */
  lemma AddLabelGrows(t: Tables, utterance: string, labelName: string)
    ensures Grows(t, AddLabel(t, utterance, labelName))
    ensures utterance in AddLabel(t, utterance, labelName).labels.entries
    ensures labelName in AddLabel(t, utterance, labelName).labels.entries[utterance]
  {
  }

  lemma AddLabelKeepsConsistent(t: Tables, utterance: string, labelName: string)
    requires Consistent(t)
    ensures Consistent(AddLabel(t, utterance, labelName))
  {
    var r := AddLabel(t, utterance, labelName);
    if utterance in t.labels.entries {
      var existing := t.labels.entries[utterance];
      if labelName in existing {
        forall u, l | u in r.duplicates && l in r.duplicates[u] ensures l in r.labels.entries[u] {
          if u == utterance && utterance !in MapPropertyNames {
            assert r.duplicates[u] == {labelName};
          }
        }
      } else {
        assert Distinct(existing + [labelName]);
      }
    }
  }

  lemma GrowsTransitive(a: Tables, b: Tables, c: Tables)
    requires Grows(a, b) && Grows(b, c)
    ensures Grows(a, c)
  {
  }

  lemma {:induction false} AddLabelsKeepsConsistent(t: Tables, utterance: string, labelArray: seq<string>)
    requires Consistent(t)
    ensures Consistent(AddLabels(t, utterance, labelArray))
  {
    if |labelArray| > 0 {
      var p := labelArray[..|labelArray| - 1];
      AddLabelsKeepsConsistent(t, utterance, p);
      AddLabelKeepsConsistent(AddLabels(t, utterance, p), utterance, Trim(labelArray[|labelArray| - 1]));
    }
  }

  lemma {:induction false} AddLabelsGrows(t: Tables, utterance: string, labelArray: seq<string>)
    ensures Grows(t, AddLabels(t, utterance, labelArray))
  {
    if |labelArray| > 0 {
      var p := labelArray[..|labelArray| - 1];
      AddLabelsGrows(t, utterance, p);
      AddLabelGrows(AddLabels(t, utterance, p), utterance, Trim(labelArray[|labelArray| - 1]));
      GrowsTransitive(t, AddLabels(t, utterance, p), AddLabels(t, utterance, labelArray));
    }
  }

  /** After `AddLabels`, the utterance holds every one of the trimmed labels. */
  ghost predicate Records(t: Tables, utterance: string, labelArray: seq<string>)
  {
    && utterance in t.labels.entries
    && forall i :: 0 <= i < |labelArray| ==> Trim(labelArray[i]) in t.labels.entries[utterance]
  }

  lemma GrowsKeepsRecords(t: Tables, r: Tables, utterance: string, labelArray: seq<string>)
    requires Grows(t, r) && Records(t, utterance, labelArray)
    ensures Records(r, utterance, labelArray)
  {
    forall i | 0 <= i < |labelArray| ensures Trim(labelArray[i]) in r.labels.entries[utterance] {
      var x := Trim(labelArray[i]);
      var a, b := t.labels.entries[utterance], r.labels.entries[utterance];
      var k :| 0 <= k < |a| && a[k] == x;
      assert b[k] == x;
    }
  }

  lemma {:induction false} AddLabelsRecords(t: Tables, utterance: string, labelArray: seq<string>)
    requires |labelArray| > 0
    ensures Records(AddLabels(t, utterance, labelArray), utterance, labelArray)
  {
    var n := |labelArray|;
    var p := labelArray[..n - 1];
    var mid := AddLabels(t, utterance, p);
    var r := AddLabels(t, utterance, labelArray);
    var last := Trim(labelArray[n - 1]);
    assert r == AddLabel(mid, utterance, last);
    AddLabelGrows(mid, utterance, last);
    if n > 1 {
      AddLabelsRecords(t, utterance, p);
      GrowsKeepsRecords(mid, r, utterance, p);
    }
    RecordsExtend(r, utterance, labelArray);
  }

  /** Recording a prefix and the last label records the whole array. */
  lemma RecordsExtend(r: Tables, utterance: string, labelArray: seq<string>)
    requires |labelArray| > 0 && utterance in r.labels.entries
    requires Records(r, utterance, labelArray[..|labelArray| - 1])
    requires Trim(labelArray[|labelArray| - 1]) in r.labels.entries[utterance]
    ensures Records(r, utterance, labelArray)
  {
    var p := labelArray[..|labelArray| - 1];
    forall i | 0 <= i < |labelArray| ensures Trim(labelArray[i]) in r.labels.entries[utterance] {
      if i < |labelArray| - 1 {
        assert labelArray[i] == p[i];
      }
    }
  }

  /** The errors the TSV reader raises. */
  datatype TsvError =
    | NegativeUtteranceIndex(utteranceIndex: int)
    | UtteranceIndexOutOfRange(utteranceIndex: int, itemsLength: nat)

  /** `items[index]` when `index` is in range, '' otherwise. */
  function FieldOrEmpty(items: seq<string>, index: int): string
  {
    if 0 <= index < |items| then items[index] else ""
  }

  /** The trimmed utterance and label columns of one TSV line. */
  datatype Columns = Columns(utterance: string, labels: string, labelsPredicted: string)

  function ParseLine(line: string, utteranceIndex: nat, labelsIndex: int, labelsPredictedIndex: int): Result<Columns, TsvError>
  {
    var items := Split(line, '\t');
    if utteranceIndex >= |items| then Failure(UtteranceIndexOutOfRange(utteranceIndex, |items|))
    else Success(Columns(
      Trim(items[utteranceIndex]),
      Trim(FieldOrEmpty(items, labelsIndex)),
      Trim(FieldOrEmpty(items, labelsPredictedIndex))))
  }

  /** The columns `processUtteranceMultiLabelTsv` reads when its caller names none: labels, predicted labels, utterance. */
  const DefaultUtteranceIndex: int := 2
  const DefaultLabelsIndex: int := 0
  const DefaultLabelsPredictedIndex: int := 1

  /** The state of a TSV run: both table pairs and the error that stopped it, if any. */
  datatype Run = Run(labels: Tables, predicted: Tables, error: Option<TsvError>)

  /** One line of `processUtteranceMultiLabelTsv`: its labels, then its predicted labels. */
  function ProcessLine(r: Run, parsed: Result<Columns, TsvError>): Run
  {
    match parsed
    case Failure(e) => Run(r.labels, r.predicted, Some(e))
    case Success(c) =>
      Run(
        AddLabels(r.labels, c.utterance, Split(c.labels, ',')),
        AddLabels(r.predicted, c.utterance, Split(c.labelsPredicted, ',')),
        None)
  }

  /** The parser of one line for the given columns. */
  function LineParser(utteranceIndex: nat, labelsIndex: int, labelsPredictedIndex: int): string -> Result<Columns, TsvError>
  {
    line => ParseLine(line, utteranceIndex, labelsIndex, labelsPredictedIndex)
  }

  /** The lines in order; the first bad line stops the run, keeping what earlier lines did. */
  function ProcessLines(start: Run, lines: seq<string>, parse: string -> Result<Columns, TsvError>): Run
  {
    if |lines| == 0 then start
    else
      var r := ProcessLines(start, lines[..|lines| - 1], parse);
      if r.error.Some? then r
      else ProcessLine(r, parse(lines[|lines| - 1]))
  }

  /** `processUtteranceMultiLabelTsv` as a whole: a negative utterance column fails before any line. */
  function ProcessUtteranceMultiLabelTsvSpec(
    start: Run, lines: seq<string>, utteranceIndex: int, labelsIndex: int, labelsPredictedIndex: int): Run
  {
    if utteranceIndex < 0 then Run(start.labels, start.predicted, Some(NegativeUtteranceIndex(utteranceIndex)))
    else ProcessLines(start, lines, LineParser(utteranceIndex, labelsIndex, labelsPredictedIndex))
  }

  /** Reading TSV lines keeps both table pairs consistent. */
  lemma {:induction false} ProcessLinesKeepsConsistent(
    start: Run, lines: seq<string>, parse: string -> Result<Columns, TsvError>)
    requires Consistent(start.labels) && Consistent(start.predicted)
    ensures Consistent(ProcessLines(start, lines, parse).labels)
    ensures Consistent(ProcessLines(start, lines, parse).predicted)
  {
    if |lines| > 0 {
      var p := lines[..|lines| - 1];
      ProcessLinesKeepsConsistent(start, p, parse);
      var r := ProcessLines(start, p, parse);
      if r.error.None? {
        var parsed := parse(lines[|lines| - 1]);
        if parsed.Success? {
          var c := parsed.value;
          AddLabelsKeepsConsistent(r.labels, c.utterance, Split(c.labels, ','));
          AddLabelsKeepsConsistent(r.predicted, c.utterance, Split(c.labelsPredicted, ','));
        }
      }
    }
  }

  /** Reading TSV lines only ever adds to both tables. */
  lemma {:induction false} ProcessLinesGrows(
    start: Run, lines: seq<string>, parse: string -> Result<Columns, TsvError>)
    ensures Grows(start.labels, ProcessLines(start, lines, parse).labels)
    ensures Grows(start.predicted, ProcessLines(start, lines, parse).predicted)
  {
    if |lines| > 0 {
      var p := lines[..|lines| - 1];
      ProcessLinesGrows(start, p, parse);
      var r := ProcessLines(start, p, parse);
      var q := ProcessLines(start, lines, parse);
      if r.error.None? {
        var parsed := parse(lines[|lines| - 1]);
        if parsed.Success? {
          var c := parsed.value;
          AddLabelsGrows(r.labels, c.utterance, Split(c.labels, ','));
          AddLabelsGrows(r.predicted, c.utterance, Split(c.labelsPredicted, ','));
          GrowsTransitive(start.labels, r.labels, q.labels);
          GrowsTransitive(start.predicted, r.predicted, q.predicted);
        }
      }
    }
  }

  /** The line parsed, and the tables hold its utterance with each of its labels and predicted labels. */
  ghost predicate LineRecorded(r: Run, parsed: Result<Columns, TsvError>)
  {
    && parsed.Success?
    && Records(r.labels, parsed.value.utterance, Split(parsed.value.labels, ','))
    && Records(r.predicted, parsed.value.utterance, Split(parsed.value.labelsPredicted, ','))
  }

  lemma GrowsKeepsLineRecorded(r: Run, q: Run, parsed: Result<Columns, TsvError>)
    requires Grows(r.labels, q.labels) && Grows(r.predicted, q.predicted)
    requires LineRecorded(r, parsed)
    ensures LineRecorded(q, parsed)
  {
    var c := parsed.value;
    GrowsKeepsRecords(r.labels, q.labels, c.utterance, Split(c.labels, ','));
    GrowsKeepsRecords(r.predicted, q.predicted, c.utterance, Split(c.labelsPredicted, ','));
  }

  /** A parsed line is recorded by its own step, and the step only adds. */
  lemma ProcessLineRecords(r: Run, parsed: Result<Columns, TsvError>)
    requires parsed.Success?
    ensures LineRecorded(ProcessLine(r, parsed), parsed)
    ensures Grows(r.labels, ProcessLine(r, parsed).labels)
    ensures Grows(r.predicted, ProcessLine(r, parsed).predicted)
  {
    var c := parsed.value;
    AddLabelsGrows(r.labels, c.utterance, Split(c.labels, ','));
    AddLabelsGrows(r.predicted, c.utterance, Split(c.labelsPredicted, ','));
    AddLabelsRecords(r.labels, c.utterance, Split(c.labels, ','));
    AddLabelsRecords(r.predicted, c.utterance, Split(c.labelsPredicted, ','));
  }

  /**
   * A run that ends without error has recorded, for every line, the line's
   * utterance with each of its labels and each of its predicted labels.
   */
  lemma {:induction false} ProcessLinesRecordsEveryLine(
    start: Run, lines: seq<string>, parse: string -> Result<Columns, TsvError>)
    requires ProcessLines(start, lines, parse).error.None?
    ensures forall i :: 0 <= i < |lines| ==> LineRecorded(ProcessLines(start, lines, parse), parse(lines[i]))
  {
    if |lines| > 0 {
      var n := |lines|;
      var p := lines[..n - 1];
      var mid := ProcessLines(start, p, parse);
      var r := ProcessLines(start, lines, parse);
      assert mid.error.None?;
      ProcessLinesRecordsEveryLine(start, p, parse);
      assert r == ProcessLine(mid, parse(lines[n - 1]));
      ProcessLineRecords(mid, parse(lines[n - 1]));
      GrowsKeepsLinesRecorded(mid, r, p, parse);
      LinesRecordedExtend(r, p, lines, parse);
    }
  }

  /** Lines recorded in a run stay recorded as its tables grow. */
  lemma GrowsKeepsLinesRecorded(r: Run, q: Run, lines: seq<string>, parse: string -> Result<Columns, TsvError>)
    requires Grows(r.labels, q.labels) && Grows(r.predicted, q.predicted)
    requires forall i :: 0 <= i < |lines| ==> LineRecorded(r, parse(lines[i]))
    ensures forall i :: 0 <= i < |lines| ==> LineRecorded(q, parse(lines[i]))
  {
    forall i | 0 <= i < |lines| ensures LineRecorded(q, parse(lines[i])) {
      GrowsKeepsLineRecorded(r, q, parse(lines[i]));
    }
  }

  /** Recording every line of a prefix and the last line records every line. */
  lemma LinesRecordedExtend(r: Run, p: seq<string>, lines: seq<string>, parse: string -> Result<Columns, TsvError>)
    requires |lines| > 0 && p == lines[..|lines| - 1]
    requires forall i :: 0 <= i < |p| ==> LineRecorded(r, parse(p[i]))
    requires LineRecorded(r, parse(lines[|lines| - 1]))
    ensures forall i :: 0 <= i < |lines| ==> LineRecorded(r, parse(lines[i]))
  {
    forall i | 0 <= i < |lines| ensures LineRecorded(r, parse(lines[i])) {
      if i < |lines| - 1 {
        assert p[i] == lines[i];
      }
    }
  }

  /** Once a line fails, later lines change nothing. */
  lemma {:induction false} ProcessLinesStopsAtError(
    start: Run, lines: seq<string>, k: nat, parse: string -> Result<Columns, TsvError>)
    requires k <= |lines|
    requires ProcessLines(start, lines[..k], parse).error.Some?
    ensures ProcessLines(start, lines, parse)
         == ProcessLines(start, lines[..k], parse)
  {
    if k < |lines| {
      assert lines[..|lines| - 1][..k] == lines[..k];
      ProcessLinesStopsAtError(start, lines[..|lines| - 1], k, parse);
    } else {
      assert lines[..k] == lines;
    }
  }

  /** A run fails exactly when one of its lines fails to parse. */
  lemma {:induction false} ProcessLinesFailsIff(start: Run, lines: seq<string>, parse: string -> Result<Columns, TsvError>)
    requires start.error.None?
    ensures ProcessLines(start, lines, parse).error.Some? <==> exists i :: 0 <= i < |lines| && parse(lines[i]).Failure?
  {
    if |lines| > 0 {
      var n := |lines|;
      var p := lines[..n - 1];
      ProcessLinesFailsIff(start, p, parse);
      var mid := ProcessLines(start, p, parse);
      var r := ProcessLines(start, lines, parse);
      if mid.error.Some? {
        assert r == mid;
        var i :| 0 <= i < |p| && parse(p[i]).Failure?;
        assert p[i] == lines[i];
      } else {
        assert r == ProcessLine(mid, parse(lines[n - 1]));
        forall i | 0 <= i < n - 1 ensures parse(lines[i]).Success? {
          assert p[i] == lines[i];
        }
        if parse(lines[n - 1]).Failure? {
          assert r.error.Some?;
        } else {
          assert r.error.None?;
          assert forall i :: 0 <= i < n ==> parse(lines[i]).Success?;
        }
      }
    }
  }

  /**
   * `processUtteranceMultiLabelTsv` raises an error exactly when the
   * utterance column is negative or some line has no such column.
   */
  lemma ProcessUtteranceMultiLabelTsvFailsIff(
    start: Run, lines: seq<string>, utteranceIndex: int, labelsIndex: int, labelsPredictedIndex: int)
    requires start.error.None?
    ensures ProcessUtteranceMultiLabelTsvSpec(start, lines, utteranceIndex, labelsIndex, labelsPredictedIndex).error.Some?
        <==> utteranceIndex < 0 || exists i :: 0 <= i < |lines| && |Split(lines[i], '\t')| <= utteranceIndex
  {
    if utteranceIndex >= 0 {
      ProcessLinesFailsIff(start, lines, LineParser(utteranceIndex, labelsIndex, labelsPredictedIndex));
    }
  }

  /**
   * A `processUtteranceMultiLabelTsv` run that succeeds keeps both table
   * pairs consistent and holds every line's utterance with each of its
   * trimmed labels and predicted labels.
   */
  lemma ProcessUtteranceMultiLabelTsvRecordsEveryLine(
    start: Run, lines: seq<string>, utteranceIndex: int, labelsIndex: int, labelsPredictedIndex: int)
    requires Consistent(start.labels) && Consistent(start.predicted)
    requires ProcessUtteranceMultiLabelTsvSpec(start, lines, utteranceIndex, labelsIndex, labelsPredictedIndex).error.None?
    ensures utteranceIndex >= 0
    ensures var r := ProcessUtteranceMultiLabelTsvSpec(start, lines, utteranceIndex, labelsIndex, labelsPredictedIndex);
      && Consistent(r.labels) && Consistent(r.predicted)
      && forall i :: 0 <= i < |lines| ==> LineRecorded(r, ParseLine(lines[i], utteranceIndex, labelsIndex, labelsPredictedIndex))
  {
    var parse := LineParser(utteranceIndex, labelsIndex, labelsPredictedIndex);
    ProcessLinesKeepsConsistent(start, lines, parse);
    ProcessLinesRecordsEveryLine(start, lines, parse);
  }

  /**
   * With the default columns, a run raises an error exactly when some line
   * has fewer than three tab-separated fields.
   */
  lemma ProcessUtteranceMultiLabelTsvDefaultsFailsIff(start: Run, lines: seq<string>)
    requires start.error.None?
    ensures ProcessUtteranceMultiLabelTsvSpec(start, lines, DefaultUtteranceIndex, DefaultLabelsIndex, DefaultLabelsPredictedIndex).error.Some?
        <==> exists i :: 0 <= i < |lines| && |Split(lines[i], '\t')| < 3
  {
    ProcessUtteranceMultiLabelTsvFailsIff(start, lines, DefaultUtteranceIndex, DefaultLabelsIndex, DefaultLabelsPredictedIndex);
  }

  /**
   * For an ordinary utterance, the duplicates map keeps only the last repeated
   * label: a second repeated label replaces the first.
   */
  lemma OrdinaryUtteranceKeepsLastDuplicate(t: Tables, utterance: string, first: string, second: string)
    requires Consistent(t)
    requires utterance in t.labels.entries && utterance !in MapPropertyNames
    requires first in t.labels.entries[utterance] && second in t.labels.entries[utterance]
    ensures AddLabel(AddLabel(t, utterance, first), utterance, second).duplicates[utterance] == {second}
  {
  }

  /** A caller-owned label dictionary, updated in place. */
  class LabelDictionary {
    var keys: seq<string>
    var entries: map<string, seq<string>>

    function Value(): Dictionary
      reads this
    {
      Dictionary(keys, entries)
    }

    constructor ()
      ensures keys == [] && entries == map[]
    {
      keys := [];
      entries := map[];
    }
  }

  /** A caller-owned `Map<string, Set<string>>`, updated in place. */
  class DuplicateMap {
    var entries: map<string, set<string>>

    constructor ()
      ensures entries == map[]
    {
      entries := map[];
    }
  }

  /** The state of a label dictionary and its duplicates map. */
  function TablesOf(d: LabelDictionary, m: DuplicateMap): Tables
    reads d, m
  {
    Tables(d.Value(), m.entries)
  }

  /**
   * `addIfNewLabel`: reports whether `newLabel` was missing and, if so,
   * appends it. The push into the caller's array is the returned sequence.
   */
  method AddIfNewLabel(newLabel: string, labels: seq<string>) returns (added: bool, pushed: seq<string>)
    ensures added <==> newLabel !in labels
    ensures pushed == if added then labels + [newLabel] else labels
  {
    for i := 0 to |labels|
      invariant newLabel !in labels[..i]
    {
      if labels[i] == newLabel {
        return false, labels;
      }
      assert labels[..i + 1] == labels[..i] + [labels[i]];
    }
    assert labels[..|labels|] == labels;
    return true, labels + [newLabel];
  }

  /** `insertStringPairToStringIdStringSetNativeMap`, in place; the map itself is returned. */
  method InsertStringPairToStringIdStringSetNativeMap(key: string, value: string, stringKeyStringSetMap: DuplicateMap)
    returns (r: DuplicateMap)
    modifies stringKeyStringSetMap
    ensures r == stringKeyStringSetMap
    ensures stringKeyStringSetMap.entries == InsertStringPair(old(stringKeyStringSetMap.entries), key, value)
  {
    if key in MapPropertyNames {
      var stringSet := if key in stringKeyStringSetMap.entries then stringKeyStringSetMap.entries[key] else {};
      stringKeyStringSetMap.entries := stringKeyStringSetMap.entries[key := stringSet + {value}];
    } else {
      stringKeyStringSetMap.entries := stringKeyStringSetMap.entries[key := {value}];
    }
    r := stringKeyStringSetMap;
  }

  /** `addToMultiLabelUtteranceStructure`, in place. */
  method AddToMultiLabelUtteranceStructure(
    utterance: string, labelName: string,
    utterancesLabelsMap: LabelDictionary, utterancesDuplicateLabelsMap: DuplicateMap)
    modifies utterancesLabelsMap, utterancesDuplicateLabelsMap
    ensures TablesOf(utterancesLabelsMap, utterancesDuplicateLabelsMap)
         == AddLabel(old(TablesOf(utterancesLabelsMap, utterancesDuplicateLabelsMap)), utterance, labelName)
  {
    if utterance in utterancesLabelsMap.entries {
      var existingLabels := utterancesLabelsMap.entries[utterance];
      var added, pushed := AddIfNewLabel(labelName, existingLabels);
      utterancesLabelsMap.entries := utterancesLabelsMap.entries[utterance := pushed];
      if !added {
        var _ := InsertStringPairToStringIdStringSetNativeMap(utterance, labelName, utterancesDuplicateLabelsMap);
      }
    } else {
      utterancesLabelsMap.keys := utterancesLabelsMap.keys + [utterance];
      utterancesLabelsMap.entries := utterancesLabelsMap.entries[utterance := [labelName]];
    }
  }

  /** The `for (const label of labelArray)` loop of `processUtteranceMultiLabelTsv`. */
  method AddLabelsInPlace(
    utterance: string, labelArray: seq<string>,
    utterancesLabelsMap: LabelDictionary, utterancesDuplicateLabelsMap: DuplicateMap)
    modifies utterancesLabelsMap, utterancesDuplicateLabelsMap
    ensures TablesOf(utterancesLabelsMap, utterancesDuplicateLabelsMap)
         == AddLabels(old(TablesOf(utterancesLabelsMap, utterancesDuplicateLabelsMap)), utterance, labelArray)
  {
    ghost var before := TablesOf(utterancesLabelsMap, utterancesDuplicateLabelsMap);
    for j := 0 to |labelArray|
      invariant TablesOf(utterancesLabelsMap, utterancesDuplicateLabelsMap) == AddLabels(before, utterance, labelArray[..j])
    {
      assert labelArray[..j + 1][..j] == labelArray[..j];
      AddToMultiLabelUtteranceStructure(utterance, Trim(labelArray[j]), utterancesLabelsMap, utterancesDuplicateLabelsMap);
    }
    assert labelArray[..|labelArray|] == labelArray;
  }

  /** The body of the `lines.forEach` callback: one line read into both table pairs, or the error it raises. */
  method ProcessLineInPlace(
    line: string,
    utterancesLabelsMap: LabelDictionary,
    utterancesLabelsPredictedMap: LabelDictionary,
    utterancesDuplicateLabelsMap: DuplicateMap,
    utterancesDuplicateLabelsPredictedMap: DuplicateMap,
    utteranceIndex: nat, labelsIndex: int, labelsPredictedIndex: int)
    returns (error: Option<TsvError>)
    requires utterancesLabelsMap != utterancesLabelsPredictedMap
    requires utterancesDuplicateLabelsMap != utterancesDuplicateLabelsPredictedMap
    modifies utterancesLabelsMap, utterancesLabelsPredictedMap
    modifies utterancesDuplicateLabelsMap, utterancesDuplicateLabelsPredictedMap
    ensures
      Run(TablesOf(utterancesLabelsMap, utterancesDuplicateLabelsMap),
          TablesOf(utterancesLabelsPredictedMap, utterancesDuplicateLabelsPredictedMap), error)
      == ProcessLine(
           Run(old(TablesOf(utterancesLabelsMap, utterancesDuplicateLabelsMap)),
               old(TablesOf(utterancesLabelsPredictedMap, utterancesDuplicateLabelsPredictedMap)), None),
           ParseLine(line, utteranceIndex, labelsIndex, labelsPredictedIndex))
  {
    ghost var labelTables := TablesOf(utterancesLabelsMap, utterancesDuplicateLabelsMap);
    ghost var predictedTables := TablesOf(utterancesLabelsPredictedMap, utterancesDuplicateLabelsPredictedMap);
    var items := Split(line, '\t');
    if utteranceIndex >= |items| {
      return Some(UtteranceIndexOutOfRange(utteranceIndex, |items|));
    }
    var utterance := items[utteranceIndex];
    var labels := FieldOrEmpty(items, labelsIndex);
    var labelsPredicted := FieldOrEmpty(items, labelsPredictedIndex);
    labels := Trim(labels);
    utterance := Trim(utterance);
    labelsPredicted := Trim(labelsPredicted);
    assert ParseLine(line, utteranceIndex, labelsIndex, labelsPredictedIndex)
        == Success(Columns(utterance, labels, labelsPredicted));
    AddLabelsInPlace(utterance, Split(labels, ','), utterancesLabelsMap, utterancesDuplicateLabelsMap);
    AddLabelsInPlace(utterance, Split(labelsPredicted, ','), utterancesLabelsPredictedMap, utterancesDuplicateLabelsPredictedMap);
    assert TablesOf(utterancesLabelsMap, utterancesDuplicateLabelsMap) == AddLabels(labelTables, utterance, Split(labels, ','));
    return None;
  }

  /**
   * `processUtteranceMultiLabelTsv`: records the labels and the predicted
   * labels of every line; a bad utterance column raises an error, and the
   * lines before it stay recorded.
   */
  method ProcessUtteranceMultiLabelTsv(
    lines: seq<string>,
    utterancesLabelsMap: LabelDictionary,
    utterancesLabelsPredictedMap: LabelDictionary,
    utterancesDuplicateLabelsMap: DuplicateMap,
    utterancesDuplicateLabelsPredictedMap: DuplicateMap,
    utteranceIndex: int, labelsIndex: int, labelsPredictedIndex: int)
    returns (r: Result<bool, TsvError>)
    requires utterancesLabelsMap != utterancesLabelsPredictedMap
    requires utterancesDuplicateLabelsMap != utterancesDuplicateLabelsPredictedMap
    modifies utterancesLabelsMap, utterancesLabelsPredictedMap
    modifies utterancesDuplicateLabelsMap, utterancesDuplicateLabelsPredictedMap
    ensures
      var run := ProcessUtteranceMultiLabelTsvSpec(
        Run(old(TablesOf(utterancesLabelsMap, utterancesDuplicateLabelsMap)),
            old(TablesOf(utterancesLabelsPredictedMap, utterancesDuplicateLabelsPredictedMap)), None),
        lines, utteranceIndex, labelsIndex, labelsPredictedIndex);
      && TablesOf(utterancesLabelsMap, utterancesDuplicateLabelsMap) == run.labels
      && TablesOf(utterancesLabelsPredictedMap, utterancesDuplicateLabelsPredictedMap) == run.predicted
      && (r.Failure? <==> run.error.Some?)
      && (r.Failure? ==> r.error == run.error.value)
      && (r.Success? ==> r.value)
  {
    ghost var start := Run(TablesOf(utterancesLabelsMap, utterancesDuplicateLabelsMap),
      TablesOf(utterancesLabelsPredictedMap, utterancesDuplicateLabelsPredictedMap), None);
    if utteranceIndex < 0 {
      return Failure(NegativeUtteranceIndex(utteranceIndex));
    }
    ghost var parse := LineParser(utteranceIndex, labelsIndex, labelsPredictedIndex);
    for i := 0 to |lines|
      invariant ProcessLines(start, lines[..i], parse)
        == Run(TablesOf(utterancesLabelsMap, utterancesDuplicateLabelsMap),
               TablesOf(utterancesLabelsPredictedMap, utterancesDuplicateLabelsPredictedMap), None)
    {
      assert lines[..i + 1][..i] == lines[..i];
      var error := ProcessLineInPlace(
        lines[i], utterancesLabelsMap, utterancesLabelsPredictedMap,
        utterancesDuplicateLabelsMap, utterancesDuplicateLabelsPredictedMap,
        utteranceIndex, labelsIndex, labelsPredictedIndex);
      if error.Some? {
        ProcessLinesStopsAtError(start, lines, i + 1, parse);
        return Failure(error.value);
      }
    }
    assert lines[..|lines|] == lines;
    return Success(true);
  }
}
