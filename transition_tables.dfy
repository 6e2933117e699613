/** The transition tables. The small region's `transition_table` decodes each group of the
    grouped area sum through the loaded label map, pivots the (start, end, area) records
    into a start x end frame, fills missing cells with 0, adds every taxonomy label as a
    row and a column of zeros where it is missing, and sorts rows and columns. The large
    regions' table pivots one (start, end, value) record per "S-E|Y1_Y2" key and fills
    missing cells with 0, with no label fill. */
module TransitionTables {
  import opened Wrappers
  import opened Decimal
  import opened Sorting
  import opened TransitionCodes
  import opened Frames
  import opened Reductions

  type Table = Frame<string, string>

  // ---- decoding the groups ----

  /** The record of one group, when the loaded map holds its code. */
  function GroupRecord(loaded: seq<(string, LabelPair)>, g: Group): (r: Option<Record<string, string>>)
    ensures r.Some? <==> Lookup(loaded, Show(g.transition)).Some?
    ensures r.Some? ==> r.value.value == g.sum
                        && (r.value.row, r.value.col) == Lookup(loaded, Show(g.transition)).value
  {
    match Lookup(loaded, Show(g.transition))
    case Some(pair) => Some(Record(pair.0, pair.1, g.sum))
    case None => None
  }

  /** The rows `transition_table` builds, one per group in order; the first code missing
      from the loaded map is a KeyError. */
  function DecodedRecords(loaded: seq<(string, LabelPair)>, groups: seq<Group>): (r: Result<seq<Record<string, string>>>)
    ensures r.Ok? <==> forall k :: 0 <= k < |groups| ==> GroupRecord(loaded, groups[k]).Some?
    ensures r.Err? ==> r.error.KeyError?
    ensures r.Ok? ==> |r.value| == |groups|
                      && forall k :: 0 <= k < |groups| ==> GroupRecord(loaded, groups[k]) == Some(r.value[k])
  {
    if |groups| == 0 then Ok([])
    else
      var n := |groups| - 1;
      assert forall k :: 0 <= k < n ==> groups[..n][k] == groups[k];
      match DecodedRecords(loaded, groups[..n])
      case Err(e) => Err(e)
      case Ok(front) =>
        match GroupRecord(loaded, groups[n])
        case None => Err(KeyError(Show(groups[n].transition)))
        case Some(rec) => Ok(front + [rec])
  }

  /** Once a prefix fails, the whole decoding fails with the same error. */
  lemma {:induction false} DecodedRecordsErr(loaded: seq<(string, LabelPair)>, groups: seq<Group>, k: nat)
    requires k <= |groups| && DecodedRecords(loaded, groups[..k]).Err?
    ensures DecodedRecords(loaded, groups) == DecodedRecords(loaded, groups[..k])
  {
    var n := |groups| - 1;
    if k <= n {
      var front := groups[..n];
      assert front[..k] == groups[..k];
      DecodedRecordsErr(loaded, front, k);
      DecodedRecordsStep(loaded, groups);
    } else {
      assert groups[..k] == groups;
    }
  }

  lemma DecodedRecordsStep(loaded: seq<(string, LabelPair)>, groups: seq<Group>)
    requires |groups| > 0 && DecodedRecords(loaded, groups[..|groups| - 1]).Err?
    ensures DecodedRecords(loaded, groups) == DecodedRecords(loaded, groups[..|groups| - 1])
  {
  }

  /** The loop of `transition_table` that appends one row per group. */
  method TransitionRecords(loaded: seq<(string, LabelPair)>, groups: seq<Group>)
    returns (r: Result<seq<Record<string, string>>>)
    ensures r == DecodedRecords(loaded, groups)
  {
    var rows: seq<Record<string, string>> := [];
    for k := 0 to |groups|
      invariant DecodedRecords(loaded, groups[..k]) == Ok(rows)
    {
      assert groups[..k + 1][..k] == groups[..k];
      var pair := Lookup(loaded, Show(groups[k].transition));
      if pair.None? {
        DecodedRecordsErr(loaded, groups, k + 1);
        return Err(KeyError(Show(groups[k].transition)));
      }
      rows := rows + [Record(pair.value.0, pair.value.1, groups[k].sum)];
    }
    assert groups[..|groups|] == groups;
    return Ok(rows);
  }

  /** A code of the label map this project writes decodes to a pair of taxonomy labels. */
  lemma DecodedInLabels(labels: seq<string>, t: int)
    requires Lookup(Dump(Entries(labels)), Show(t)).Some?
    ensures Lookup(Dump(Entries(labels)), Show(t)).value.0 in labels
    ensures Lookup(Dump(Entries(labels)), Show(t)).value.1 in labels
  {
    LookupDump(Entries(labels), t);
    var q := LookupWitness(Entries(labels), t);
    EntriesWellCoded(labels);
    PairInLabels(labels, Multiplier(|labels|), Entries(labels)[q]);
  }

  lemma PairInLabels(labels: seq<string>, m: nat, item: (int, LabelPair))
    requires m > 0 && 0 <= item.0 && item.0 / m < |labels| && item.0 % m < |labels|
    requires item.1 == (labels[item.0 / m], labels[item.0 % m])
    ensures item.1.0 in labels && item.1.1 in labels
  {
  }

  // ---- adding the missing labels ----

  /** One step of the label loop: `out.loc[label] = 0` when the row is missing, then
      `out[label] = 0` when the column is missing. */
  function AddLabel(f: Table, name: string): (g: Table)
    requires Shaped(f)
    ensures Shaped(g)
    ensures forall x :: x in g.index <==> x in f.index || x == name
    ensures forall x :: x in g.columns <==> x in f.columns || x == name
  {
    var f1 := if name in f.index then f else AddZeroRow(f, name);
    if name in f1.columns then f1 else AddZeroColumn(f1, name)
  }

  /** The label loop over `labels`, in order. */
  function AddMissing(f: Table, labels: seq<string>): (g: Table)
    requires Shaped(f)
    ensures Shaped(g)
    ensures forall x :: x in g.index <==> x in f.index || x in labels
    ensures forall x :: x in g.columns <==> x in f.columns || x in labels
  {
    if |labels| == 0 then f
    else
      var n := |labels| - 1;
      assert labels == labels[..n] + [labels[n]];
      AddLabel(AddMissing(f, labels[..n]), labels[n])
  }

  /** The label loop of `transition_table`, which grows the frame in place. */
  method AddMissingLabels(f: Table, labels: seq<string>) returns (g: Table)
    requires Shaped(f)
    ensures g == AddMissing(f, labels)
  {
    g := f;
    for k := 0 to |labels|
      invariant Shaped(g) && g == AddMissing(f, labels[..k])
    {
      assert labels[..k + 1][..k] == labels[..k];
      var name := labels[k];
      if name !in g.index {
        g := AddZeroRow(g, name);
      }
      if name !in g.columns {
        g := AddZeroColumn(g, name);
      }
    }
    assert labels[..|labels|] == labels;
  }

  lemma AddLabelAt(f: Table, name: string, r: string, c: string)
    requires Shaped(f)
    requires r in AddLabel(f, name).index && c in AddLabel(f, name).columns
    ensures At(AddLabel(f, name), r, c) == if r in f.index && c in f.columns then At(f, r, c) else Some(0.0)
  {
    var f1 := if name in f.index then f else AddZeroRow(f, name);
    if name !in f.index && c in f1.columns {
      AddZeroRowAt(f, name, r, c);
    }
    if name !in f1.columns {
      AddZeroColumnAt(f1, name, r, c);
    }
  }

  /** The label fill changes no existing cell, and every cell it adds is 0. */
  lemma {:induction false} AddMissingAt(f: Table, labels: seq<string>, r: string, c: string)
    requires Shaped(f)
    requires r in AddMissing(f, labels).index && c in AddMissing(f, labels).columns
    ensures At(AddMissing(f, labels), r, c) == if r in f.index && c in f.columns then At(f, r, c) else Some(0.0)
  {
    if |labels| > 0 {
      var n := |labels| - 1;
      var g := AddMissing(f, labels[..n]);
      AddLabelAt(g, labels[n], r, c);
      if r in g.index && c in g.columns {
        AddMissingAt(f, labels[..n], r, c);
      }
    }
  }

  // ---- the small region's table ----

  /** A missing cell of the pivot reads as 0 after `fillna(0)`. */
  function MeanOrZero(xs: seq<real>): real
  {
    match Mean(xs)
    case Some(v) => v
    case None => 0.0
  }

  /** Pivot, zero-fill, add every label, sort. */
  function Completed(records: seq<Record<string, string>>, labels: seq<string>): Table
  {
    SortLabels(AddMissing(FillNa(PivotLabels(records), 0.0), labels))
  }

  /** `transition_table` from the reducer's response (`None` when it returned nothing). */
  function SmallTableOf(labels: seq<string>, loaded: seq<(string, LabelPair)>, response: Option<seq<Group>>): Result<Table>
  {
    match response
    case None => Err(ValueError("No data returned from reduceRegion."))
    case Some(groups) =>
      match DecodedRecords(loaded, groups)
      case Err(e) => Err(e)
      case Ok(records) =>
        if |records| == 0 then Err(KeyError("label"))
        else Ok(Completed(records, labels))
  }

  /** `transition_table` after the reducer call. */
  method TransitionTable(labels: seq<string>, loaded: seq<(string, LabelPair)>, response: Option<seq<Group>>)
    returns (r: Result<Table>)
    ensures r == SmallTableOf(labels, loaded, response)
  {
    if response.None? {
      return Err(ValueError("No data returned from reduceRegion."));
    }
    var records := TransitionRecords(loaded, response.value);
    if records.Err? {
      return Err(records.error);
    }
    if |records.value| == 0 {
      return Err(KeyError("label"));
    }
    var out := FillNa(PivotLabels(records.value), 0.0);
    out := AddMissingLabels(out, labels);
    return Ok(SortLabels(out));
  }

  /** No response is a ValueError; otherwise the table exists exactly when there is at least
      one group and the loaded map holds every group's code. */
  lemma SmallTableOk(labels: seq<string>, loaded: seq<(string, LabelPair)>, response: Option<seq<Group>>)
    ensures response.None? ==> SmallTableOf(labels, loaded, response) == Err(ValueError("No data returned from reduceRegion."))
    ensures response.Some? ==>
              (SmallTableOf(labels, loaded, response).Ok? <==>
                 |response.value| > 0
                 && forall k :: 0 <= k < |response.value| ==> GroupRecord(loaded, response.value[k]).Some?)
  {
  }

  /** Rows and columns are sorted, without repeats, and are the taxonomy labels together
      with every start (end) label a group decodes to. */
  lemma CompletedLabels(records: seq<Record<string, string>>, labels: seq<string>)
    ensures var t := Completed(records, labels);
            && StrictlySorted(t.index) && StrictlySorted(t.columns)
            && (forall x :: x in t.index <==> x in labels || x in RowLabels(records))
            && (forall x :: x in t.columns <==> x in labels || x in ColLabels(records))
  {
    var f0 := PivotLabels(records);
    var t := Completed(records, labels);
    forall x ensures x in t.index <==> x in labels || x in RowLabels(records) {
      assert x in t.index <==> x in Elements(t.index);
      assert x in f0.index <==> x in Elements(f0.index);
      assert x in RowLabels(records) <==> x in Elements(RowLabels(records));
    }
    forall x ensures x in t.columns <==> x in labels || x in ColLabels(records) {
      assert x in t.columns <==> x in Elements(t.columns);
      assert x in f0.columns <==> x in Elements(f0.columns);
      assert x in ColLabels(records) <==> x in Elements(ColLabels(records));
    }
  }

  /** Every cell holds the mean area of the records at its labels, or 0 where there is none
      (a pair no group decodes to, or a label added by the fill). */
  lemma CompletedAt(records: seq<Record<string, string>>, labels: seq<string>, r: string, c: string)
    requires r in labels || r in RowLabels(records)
    requires c in labels || c in ColLabels(records)
    ensures r in Completed(records, labels).index && c in Completed(records, labels).columns
    ensures At(Completed(records, labels), r, c) == Some(MeanOrZero(Matches(records, r, c)))
  {
    var f0 := PivotLabels(records);
    var f1 := FillNa(f0, 0.0);
    var f2 := AddMissing(f1, labels);
    PivotLabelsMembers(records);
    assert r in f2.index && c in f2.columns;
    SortLabelsAt(f2, r, c);
    AddMissingAt(f1, labels, r, c);
    if r in f1.index && c in f1.columns {
      FillNaAt(f0, 0.0, r, c);
      PivotLabelsAt(records, r, c);
    } else {
      forall k | 0 <= k < |records| ensures !(records[k].row == r && records[k].col == c) {
        assert RowLabels(records)[k] == records[k].row && ColLabels(records)[k] == records[k].col;
      }
    }
  }

  /** With the label map this project writes and an N-label taxonomy, the rows and the
      columns are exactly the sorted taxonomy. */
  lemma SmallTableLabels(labels: seq<string>, groups: seq<Group>)
    requires SmallTableOf(labels, Dump(Entries(labels)), Some(groups)).Ok?
    ensures var t := SmallTableOf(labels, Dump(Entries(labels)), Some(groups)).value;
            t.index == SortedSet(labels) && t.columns == SortedSet(labels)
  {
    var loaded := Dump(Entries(labels));
    SmallTableIsCompleted(labels, loaded, groups);
    var records := DecodedRecords(loaded, groups).value;
    var t := Completed(records, labels);
    CompletedLabels(records, labels);
    DecodedWithin(labels, groups, records);
    forall x ensures x in Elements(t.index) <==> x in Elements(labels) {
    }
    forall x ensures x in Elements(t.columns) <==> x in Elements(labels) {
    }
    StrictlySortedUnique(t.index, SortedSet(labels));
    StrictlySortedUnique(t.columns, SortedSet(labels));
  }

  /** The table, when it exists, is the completed pivot of the decoded records. */
  lemma SmallTableIsCompleted(labels: seq<string>, loaded: seq<(string, LabelPair)>, groups: seq<Group>)
    requires SmallTableOf(labels, loaded, Some(groups)).Ok?
    ensures DecodedRecords(loaded, groups).Ok?
    ensures SmallTableOf(labels, loaded, Some(groups)).value == Completed(DecodedRecords(loaded, groups).value, labels)
  {
  }

  /** The records decoded through the label map this project writes carry taxonomy labels. */
  lemma DecodedWithin(labels: seq<string>, groups: seq<Group>, records: seq<Record<string, string>>)
    requires DecodedRecords(Dump(Entries(labels)), groups) == Ok(records)
    ensures forall x :: x in RowLabels(records) ==> x in labels
    ensures forall x :: x in ColLabels(records) ==> x in labels
  {
    var loaded := Dump(Entries(labels));
    forall k | 0 <= k < |records| ensures records[k].row in labels && records[k].col in labels {
      assert GroupRecord(loaded, groups[k]) == Some(records[k]);
      DecodedInLabels(labels, groups[k].transition);
    }
    forall x | x in RowLabels(records) ensures x in labels {
      var k :| 0 <= k < |records| && RowLabels(records)[k] == x;
    }
    forall x | x in ColLabels(records) ensures x in labels {
      var k :| 0 <= k < |records| && ColLabels(records)[k] == x;
    }
  }

  /** Through the label map this project writes, record k sits at (labels[i], labels[j])
      exactly when group k's id is the code of (i, j). */
  lemma DecodedMatches(labels: seq<string>, groups: seq<Group>, records: seq<Record<string, string>>, i: nat, j: nat)
    requires Distinct(labels) && i < |labels| && j < |labels|
    requires DecodedRecords(Dump(Entries(labels)), groups) == Ok(records)
    ensures |records| == |groups|
    ensures forall k :: 0 <= k < |records| ==>
              ((records[k].row == labels[i] && records[k].col == labels[j])
                 <==> groups[k].transition == Encode(i, j, Multiplier(|labels|)))
    ensures forall k :: 0 <= k < |records| ==> records[k].value == groups[k].sum
  {
    var loaded := Dump(Entries(labels));
    forall k | 0 <= k < |records|
      ensures (records[k].row == labels[i] && records[k].col == labels[j])
                <==> groups[k].transition == Encode(i, j, Multiplier(|labels|))
      ensures records[k].value == groups[k].sum
    {
      assert GroupRecord(loaded, groups[k]) == Some(records[k]);
      DecodeExact(labels, groups[k].transition, i, j);
    }
  }

  /** With the label map this project writes and distinct group ids, cell
      (labels[i], labels[j]) is the area of the group whose id is the code of (i, j), or 0
      when no group has that id. In particular the background group 0 lands in the cell
      of (labels[0], labels[0]). */
  lemma SmallTableCell(labels: seq<string>, groups: seq<Group>, i: nat, j: nat)
    requires Distinct(labels) && i < |labels| && j < |labels|
    requires forall p, q :: 0 <= p < q < |groups| ==> groups[p].transition != groups[q].transition
    requires SmallTableOf(labels, Dump(Entries(labels)), Some(groups)).Ok?
    ensures var t := SmallTableOf(labels, Dump(Entries(labels)), Some(groups)).value;
            && labels[i] in t.index && labels[j] in t.columns
            && (forall k :: 0 <= k < |groups| && groups[k].transition == Encode(i, j, Multiplier(|labels|)) ==>
                  At(t, labels[i], labels[j]) == Some(groups[k].sum))
            && ((forall k :: 0 <= k < |groups| ==> groups[k].transition != Encode(i, j, Multiplier(|labels|))) ==>
                  At(t, labels[i], labels[j]) == Some(0.0))
  {
    var loaded := Dump(Entries(labels));
    SmallTableIsCompleted(labels, loaded, groups);
    CompletedCell(labels, groups, DecodedRecords(loaded, groups).value, i, j);
  }

  /** The same cell of the completed pivot of the decoded rows. */
  lemma CompletedCell(labels: seq<string>, groups: seq<Group>, records: seq<Record<string, string>>, i: nat, j: nat)
    requires Distinct(labels) && i < |labels| && j < |labels|
    requires forall p, q :: 0 <= p < q < |groups| ==> groups[p].transition != groups[q].transition
    requires DecodedRecords(Dump(Entries(labels)), groups) == Ok(records)
    ensures var t := Completed(records, labels);
            && labels[i] in t.index && labels[j] in t.columns
            && (forall k :: 0 <= k < |groups| && groups[k].transition == Encode(i, j, Multiplier(|labels|)) ==>
                  At(t, labels[i], labels[j]) == Some(groups[k].sum))
            && ((forall k :: 0 <= k < |groups| ==> groups[k].transition != Encode(i, j, Multiplier(|labels|))) ==>
                  At(t, labels[i], labels[j]) == Some(0.0))
  {
    DecodedMatches(labels, groups, records, i, j);
    CodedCell(labels, groups, records, i, j, Encode(i, j, Multiplier(|labels|)));
  }

  /** Rows that pair labels i and j exactly where their group has `code` put that group's
      sum, or 0 when no group has it, in the completed table. */
  lemma CodedCell(labels: seq<string>, groups: seq<Group>, records: seq<Record<string, string>>,
                  i: nat, j: nat, code: int)
    requires i < |labels| && j < |labels|
    requires forall p, q :: 0 <= p < q < |groups| ==> groups[p].transition != groups[q].transition
    requires |records| == |groups|
    requires forall k :: 0 <= k < |records| ==>
               ((records[k].row == labels[i] && records[k].col == labels[j]) <==> groups[k].transition == code)
    requires forall k :: 0 <= k < |records| ==> records[k].value == groups[k].sum
    ensures var t := Completed(records, labels);
            && labels[i] in t.index && labels[j] in t.columns
            && (forall k :: 0 <= k < |groups| && groups[k].transition == code ==>
                  At(t, labels[i], labels[j]) == Some(groups[k].sum))
            && ((forall k :: 0 <= k < |groups| ==> groups[k].transition != code) ==>
                  At(t, labels[i], labels[j]) == Some(0.0))
  {
    CompletedAt(records, labels, labels[i], labels[j]);
    var t := Completed(records, labels);
    forall k | 0 <= k < |groups| && groups[k].transition == code
      ensures At(t, labels[i], labels[j]) == Some(groups[k].sum)
    {
      MatchesSingle(records, k, labels[i], labels[j]);
    }
  }

  // ---- the large regions' table ----

  /** `label_pair, _ = key.split("|")` then `start_label, end_label = label_pair.split("-")`. */
  function KeyLabels(key: string): Result<LabelPair>
  {
    match SplitTwo(key, '|')
    case Err(e) => Err(e)
    case Ok((labelPair, _)) => SplitTwo(labelPair, '-')
  }

  /** A key "S-E|Y" gives back (S, E) whatever the year part Y, when neither label holds '-'
      or '|' and Y holds no '|'. */
  lemma KeyLabelsOfKey(s: string, e: string, years: string)
    requires '-' !in s && '-' !in e && '|' !in s && '|' !in e && '|' !in years
    ensures KeyLabels(s + "-" + e + "|" + years) == Ok((s, e))
  {
    var labelPair := s + "-" + e;
    assert '|' !in labelPair;
    SplitTwoJoin(labelPair, years, '|');
    assert s + "-" + e + "|" + years == labelPair + "|" + years;
    SplitTwoJoin(s, e, '-');
  }

  /** The rows the large table's loop appends, one per `value_map` item in order. */
  function ValueRecords(valueMap: seq<(string, real)>): (r: Result<seq<Record<string, string>>>)
    ensures r.Ok? <==> forall k :: 0 <= k < |valueMap| ==> KeyLabels(valueMap[k].0).Ok?
    ensures r.Err? ==> r.error.ValueError?
    ensures r.Ok? ==> |r.value| == |valueMap|
                      && forall k :: 0 <= k < |valueMap| ==>
                           r.value[k] == Record(KeyLabels(valueMap[k].0).value.0, KeyLabels(valueMap[k].0).value.1, valueMap[k].1)
  {
    if |valueMap| == 0 then Ok([])
    else
      var n := |valueMap| - 1;
      assert forall k :: 0 <= k < n ==> valueMap[..n][k] == valueMap[k];
      match ValueRecords(valueMap[..n])
      case Err(e) => Err(e)
      case Ok(front) =>
        match KeyLabels(valueMap[n].0)
        case Err(e) => Err(e)
        case Ok((s, e)) => Ok(front + [Record(s, e, valueMap[n].1)])
  }

  lemma {:induction false} ValueRecordsErr(valueMap: seq<(string, real)>, k: nat)
    requires k <= |valueMap| && ValueRecords(valueMap[..k]).Err?
    ensures ValueRecords(valueMap) == ValueRecords(valueMap[..k])
  {
    if k < |valueMap| {
      var n := |valueMap| - 1;
      assert valueMap[..n][..k] == valueMap[..k];
      ValueRecordsErr(valueMap[..n], k);
    } else {
      assert valueMap[..k] == valueMap;
    }
  }

  /** The large table: the pivot of the records, zero-filled; with no rows at all the frame
      has no "total_area" column, the first thing `pivot_table` looks up. */
  function LargeTableOf(valueMap: seq<(string, real)>): Result<Table>
  {
    match ValueRecords(valueMap)
    case Err(e) => Err(e)
    case Ok(records) =>
      if |records| == 0 then Err(KeyError("total_area"))
      else Ok(FillNa(PivotLabels(records), 0.0))
  }

  /** The table asset of the large regions. */
  method LargeTransitionTable(valueMap: seq<(string, real)>) returns (r: Result<Table>)
    ensures r == LargeTableOf(valueMap)
  {
    var out: seq<Record<string, string>> := [];
    for k := 0 to |valueMap|
      invariant ValueRecords(valueMap[..k]) == Ok(out)
    {
      assert valueMap[..k + 1][..k] == valueMap[..k];
      var pieces := SplitTwo(valueMap[k].0, '|');
      if pieces.Err? {
        ValueRecordsErr(valueMap, k + 1);
        return Err(pieces.error);
      }
      var names := SplitTwo(pieces.value.0, '-');
      if names.Err? {
        ValueRecordsErr(valueMap, k + 1);
        return Err(names.error);
      }
      out := out + [Record(names.value.0, names.value.1, valueMap[k].1)];
    }
    assert valueMap[..|valueMap|] == valueMap;
    if |out| == 0 {
      return Err(KeyError("total_area"));
    }
    return Ok(FillNa(PivotLabels(out), 0.0));
  }

  /** The start and end labels the keys name, item by item. */
  function KeyStarts(valueMap: seq<(string, real)>): (s: seq<string>)
    requires forall k :: 0 <= k < |valueMap| ==> KeyLabels(valueMap[k].0).Ok?
  {
    seq(|valueMap|, k requires 0 <= k < |valueMap| => KeyLabels(valueMap[k].0).value.0)
  }

  function KeyEnds(valueMap: seq<(string, real)>): (s: seq<string>)
    requires forall k :: 0 <= k < |valueMap| ==> KeyLabels(valueMap[k].0).Ok?
  {
    seq(|valueMap|, k requires 0 <= k < |valueMap| => KeyLabels(valueMap[k].0).value.1)
  }

  /** Rows and columns are exactly the start and end labels that occur in the keys, sorted:
      no taxonomy label is added. */
  lemma LargeTableLabels(valueMap: seq<(string, real)>)
    requires LargeTableOf(valueMap).Ok?
    ensures var t := LargeTableOf(valueMap).value;
            && StrictlySorted(t.index) && StrictlySorted(t.columns)
            && (forall x :: x in t.index <==> x in KeyStarts(valueMap))
            && (forall x :: x in t.columns <==> x in KeyEnds(valueMap))
  {
    var records := ValueRecords(valueMap).value;
    PivotLabelsMembers(records);
    assert RowLabels(records) == KeyStarts(valueMap);
    assert ColLabels(records) == KeyEnds(valueMap);
  }

  /** When the label pair of item k occurs in no other key, its cell is its value. */
  lemma LargeTableCell(valueMap: seq<(string, real)>, k: nat)
    requires LargeTableOf(valueMap).Ok? && k < |valueMap|
    requires forall q :: 0 <= q < |valueMap| && q != k ==> KeyLabels(valueMap[q].0) != KeyLabels(valueMap[k].0)
    ensures var t := LargeTableOf(valueMap).value;
            var pair := KeyLabels(valueMap[k].0).value;
            pair.0 in t.index && pair.1 in t.columns && At(t, pair.0, pair.1) == Some(valueMap[k].1)
  {
    var records := ValueRecords(valueMap).value;
    var pair := KeyLabels(valueMap[k].0).value;
    assert RowLabels(records)[k] == pair.0 && ColLabels(records)[k] == pair.1;
    PivotLabelsAt(records, pair.0, pair.1);
    MatchesSingle(records, k, pair.0, pair.1);
    FillNaAt(PivotLabels(records), 0.0, pair.0, pair.1);
  }

  /** A start label and an end label of the table whose pair occurs in no key have a 0 cell. */
  lemma LargeTableAbsent(valueMap: seq<(string, real)>, s: string, e: string)
    requires LargeTableOf(valueMap).Ok?
    requires s in LargeTableOf(valueMap).value.index && e in LargeTableOf(valueMap).value.columns
    requires forall q :: 0 <= q < |valueMap| ==> KeyLabels(valueMap[q].0) != Ok((s, e))
    ensures At(LargeTableOf(valueMap).value, s, e) == Some(0.0)
  {
    var records := ValueRecords(valueMap).value;
    forall k | 0 <= k < |records| ensures !(records[k].row == s && records[k].col == e) {
      assert KeyLabels(valueMap[k].0) != Ok((s, e));
    }
    UnmatchedCellIsZero(records, s, e);
  }

  /** A row label and a column label that no record pairs get the fill value. */
  lemma UnmatchedCellIsZero(records: seq<Record<string, string>>, s: string, e: string)
    requires s in PivotLabels(records).index && e in PivotLabels(records).columns
    requires forall k :: 0 <= k < |records| ==> !(records[k].row == s && records[k].col == e)
    ensures At(FillNa(PivotLabels(records), 0.0), s, e) == Some(0.0)
  {
    PivotLabelsMembers(records);
    PivotLabelsAt(records, s, e);
    assert Matches(records, s, e) == [];
    FillNaAt(PivotLabels(records), 0.0, s, e);
  }
}
