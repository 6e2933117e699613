/** The area tables: how the reducer's per-class sums for one year become a table of class
    areas, how the yearly tables are merged into one table with a column per year, and how
    the large regions build the same table from one area value per label and year. */
module AreaTables {
  import opened Wrappers
  import opened Decimal
  import opened Sorting
  import opened TransitionCodes
  import opened Frames
  import opened Reductions
  import opened Rasters

  // ---- small region: area_table ----

  /** `LABEL_LIST[k]`: a negative index counts from the end, any other index outside the
      list raises IndexError. */
  function PyIndex(labels: seq<string>, k: int): (r: Result<string>)
    ensures r.Ok? <==> -|labels| <= k < |labels|
    ensures r.Err? ==> r.error == IndexError
  {
    if 0 <= k < |labels| then Ok(labels[k])
    else if -|labels| <= k < 0 then Ok(labels[|labels| + k])
    else Err(IndexError)
  }

  /** The rows of `area_table`, one (label, area) per group: group 0 is the background
      and gives no row, group `t` is the class `LABEL_LIST[t - 1]`. */
  function AreaRows(labels: seq<string>, groups: seq<Group>): (r: Result<seq<(string, real)>>)
    ensures r.Ok? <==> forall k :: 0 <= k < |groups| && groups[k].transition != 0 ==>
                                     PyIndex(labels, groups[k].transition - 1).Ok?
    ensures r.Err? ==> r.error == IndexError
  {
    if |groups| == 0 then Ok([])
    else
      var n := |groups| - 1;
      assert forall k :: 0 <= k < n ==> groups[..n][k] == groups[k];
      match AreaRows(labels, groups[..n])
      case Err(e) => Err(e)
      case Ok(rows) =>
        if groups[n].transition == 0 then Ok(rows)
        else
          match PyIndex(labels, groups[n].transition - 1)
          case Err(e) => Err(e)
          case Ok(name) => Ok(rows + [(name, groups[n].sum)])
  }

  /** `area_table`: no response is a ValueError, no row leaves no "label" column to index by. */
  function AreaTableOf(labels: seq<string>, response: Option<seq<Group>>): Result<seq<(string, real)>>
  {
    match response
    case None => Err(ValueError("No data returned from reduceRegion."))
    case Some(groups) =>
      match AreaRows(labels, groups)
      case Err(e) => Err(e)
      case Ok(rows) => if |rows| == 0 then Err(KeyError("label")) else Ok(rows)
  }

  /** The loop of `area_table` that appends one row per non-background group. */
  method AreaTable(labels: seq<string>, response: Option<seq<Group>>) returns (r: Result<seq<(string, real)>>)
    ensures r == AreaTableOf(labels, response)
  {
    if response.None? {
      return Err(ValueError("No data returned from reduceRegion."));
    }
    var groups := response.value;
    var rows: seq<(string, real)> := [];
    for k := 0 to |groups|
      invariant AreaRows(labels, groups[..k]) == Ok(rows)
    {
      assert groups[..k + 1][..k] == groups[..k];
      if groups[k].transition != 0 {
        var name := PyIndex(labels, groups[k].transition - 1);
        if name.Err? {
          assert groups[k] == groups[..k + 1][k];
          assert !AreaRows(labels, groups).Ok?;
          return Err(name.error);
        }
        rows := rows + [(name.value, groups[k].sum)];
      }
    }
    assert groups[..|groups|] == groups;
    if |rows| == 0 {
      return Err(KeyError("label"));
    }
    return Ok(rows);
  }

  /** Every group code lies in 0..N, as the area raster's values do. */
  predicate CodesInRange(labels: seq<string>, groups: seq<Group>)
  {
    forall k :: 0 <= k < |groups| ==> 0 <= groups[k].transition <= |labels|
  }

  /** With codes in 0..N, every non-background group gives a row: its area under the
      label `LABEL_LIST[t - 1]`. */
  lemma {:induction false} AreaRowsCover(labels: seq<string>, groups: seq<Group>)
    requires CodesInRange(labels, groups)
    ensures AreaRows(labels, groups).Ok?
    ensures forall k :: 0 <= k < |groups| && groups[k].transition != 0 ==>
              (labels[groups[k].transition - 1], groups[k].sum) in AreaRows(labels, groups).value
  {
    if |groups| > 0 {
      var n := |groups| - 1;
      var front := groups[..n];
      assert forall k :: 0 <= k < n ==> front[k] == groups[k];
      AreaRowsCover(labels, front);
      AreaRowsStep(labels, groups);
    }
  }

  /** With codes in 0..N, every row comes from a non-background group, decoded. */
  lemma {:induction false} AreaRowsFrom(labels: seq<string>, groups: seq<Group>)
    requires CodesInRange(labels, groups)
    ensures AreaRows(labels, groups).Ok?
    ensures forall row :: row in AreaRows(labels, groups).value ==>
              exists k :: 0 <= k < |groups| && groups[k].transition != 0 &&
                          row == (labels[groups[k].transition - 1], groups[k].sum)
  {
    if |groups| > 0 {
      var n := |groups| - 1;
      var front := groups[..n];
      assert forall k :: 0 <= k < n ==> front[k] == groups[k];
      AreaRowsFrom(labels, front);
      AreaRowsStep(labels, groups);
      var prev := AreaRows(labels, front).value;
      forall row | row in AreaRows(labels, groups).value
        ensures exists k :: 0 <= k < |groups| && groups[k].transition != 0 &&
                            row == (labels[groups[k].transition - 1], groups[k].sum)
      {
        if row in prev {
          var k :| 0 <= k < n && front[k].transition != 0 && row == (labels[front[k].transition - 1], front[k].sum);
          assert groups[k] == front[k];
        } else {
          assert groups[n].transition != 0 && row == (labels[groups[n].transition - 1], groups[n].sum);
        }
      }
    }
  }

  /** One more group in range adds its decoded row, unless it is the background. */
  lemma AreaRowsStep(labels: seq<string>, groups: seq<Group>)
    requires |groups| > 0 && CodesInRange(labels, groups)
    requires AreaRows(labels, groups[..|groups| - 1]).Ok?
    ensures var n := |groups| - 1;
            var prev := AreaRows(labels, groups[..n]).value;
            AreaRows(labels, groups) ==
              if groups[n].transition == 0 then Ok(prev)
              else Ok(prev + [(labels[groups[n].transition - 1], groups[n].sum)])
  {
    var n := |groups| - 1;
    assert 0 <= groups[n].transition <= |labels|;
  }

  /** `area_table` succeeds exactly when some pixel belongs to a class, and then its rows
      are the class groups decoded to their labels. */
  lemma AreaTableDecodes(labels: seq<string>, groups: seq<Group>)
    requires CodesInRange(labels, groups)
    ensures AreaTableOf(labels, Some(groups)).Ok? <==> exists k :: 0 <= k < |groups| && groups[k].transition != 0
    ensures AreaTableOf(labels, Some(groups)).Err? ==> AreaTableOf(labels, Some(groups)) == Err(KeyError("label"))
    ensures AreaTableOf(labels, Some(groups)).Ok? ==>
              forall k :: 0 <= k < |groups| && groups[k].transition != 0 ==>
                (labels[groups[k].transition - 1], groups[k].sum) in AreaTableOf(labels, Some(groups)).value
  {
    AreaRowsCover(labels, groups);
    AreaRowsFrom(labels, groups);
    var rows := AreaRows(labels, groups).value;
    if |rows| > 0 {
      assert rows[0] in rows;
    }
  }

  /** The table decodes the area raster: a pixel's group gives the row of the last class
      whose image is set there, and no row for a background pixel. */
  lemma AreaRowOfPixel(labels: seq<string>, images: seq<Image>, band: string, area: real)
    requires |images| == |labels|
    ensures var v := AreaValue(images, band);
            AreaRows(labels, [Group(v, area)]) == if v == 0 then Ok([]) else Ok([(labels[v - 1], area)])
    ensures var v := AreaValue(images, band);
            v != 0 ==> images[v - 1](band) != 0 && forall i :: v <= i < |images| ==> images[i](band) == 0
  {
    AreaValueRange(images, band);
    var v := AreaValue(images, band);
    var g := [Group(v, area)];
    assert g[..0] == [];
    assert AreaRows(labels, g[..0]) == Ok([]);
    AreaRowsStep(labels, g);
    if v != 0 {
      var row: (string, real) := (labels[v - 1], area);
      assert [] + [row] == [row];
    }
  }

  // ---- small region: area_table_merged ----

  /** The rows of one year's table with their year column `int(year) - 2000`. */
  function YearRecords(year: int, rows: seq<(string, real)>): (s: seq<Record<string, int>>)
    ensures |s| == |rows|
    ensures forall q :: 0 <= q < |rows| ==> s[q] == Record(rows[q].0, year - 2000, rows[q].1)
  {
    seq(|rows|, q requires 0 <= q < |rows| => Record(rows[q].0, year - 2000, rows[q].1))
  }

  /** The loop of `area_table_merged` over the yearly tables, concatenated; the first key
      that is not an integer raises `int`'s ValueError. */
  function MergedRecords(tableMap: seq<(string, seq<(string, real)>)>): (r: Result<seq<Record<string, int>>>)
    ensures r.Ok? <==> forall p :: 0 <= p < |tableMap| ==> ParseInt(tableMap[p].0).Ok?
    ensures r.Err? ==> r.error.ValueError?
  {
    if |tableMap| == 0 then Ok([])
    else
      var n := |tableMap| - 1;
      assert forall p :: 0 <= p < n ==> tableMap[..n][p] == tableMap[p];
      match MergedRecords(tableMap[..n])
      case Err(e) => Err(e)
      case Ok(prev) =>
        match ParseInt(tableMap[n].0)
        case Err(e) => Err(e)
        case Ok(year) => Ok(prev + YearRecords(year, tableMap[n].1))
  }

  lemma MergedRecordsStep(tableMap: seq<(string, seq<(string, real)>)>)
    requires |tableMap| > 0 && MergedRecords(tableMap[..|tableMap| - 1]).Err?
    ensures MergedRecords(tableMap) == MergedRecords(tableMap[..|tableMap| - 1])
  {
  }

  /** Once a prefix of the yearly tables fails, the whole merge fails with that error. */
  lemma {:induction false} MergedRecordsErr(tableMap: seq<(string, seq<(string, real)>)>, k: nat)
    requires k <= |tableMap| && MergedRecords(tableMap[..k]).Err?
    ensures MergedRecords(tableMap) == MergedRecords(tableMap[..k])
  {
    var n := |tableMap| - 1;
    if k <= n {
      var front := tableMap[..n];
      assert front[..k] == tableMap[..k];
      MergedRecordsErr(front, k);
      MergedRecordsStep(tableMap);
    } else {
      assert tableMap[..k] == tableMap;
    }
  }

  /** `area_table_merged`: concatenating no table is a ValueError; the pivot of the
      records, with areas in m² turned into hectares. */
  function SmallMergedOf(tableMap: seq<(string, seq<(string, real)>)>): Result<Frame<string, int>>
  {
    if |tableMap| == 0 then Err(ValueError("No objects to concatenate"))
    else
      match MergedRecords(tableMap)
      case Err(e) => Err(e)
      case Ok(records) => Ok(Divide(PivotYears(records), 10000.0))
  }

  /** The loop of `area_table_merged` that tags every yearly table with its year. */
  method SmallAreaTableMerged(tableMap: seq<(string, seq<(string, real)>)>)
    returns (r: Result<Frame<string, int>>)
    ensures r == SmallMergedOf(tableMap)
  {
    var out: seq<Record<string, int>> := [];
    for p := 0 to |tableMap|
      invariant MergedRecords(tableMap[..p]) == Ok(out)
    {
      assert tableMap[..p + 1][..p] == tableMap[..p];
      var year := ParseInt(tableMap[p].0);
      if year.Err? {
        MergedRecordsErr(tableMap, p + 1);
        return Err(year.error);
      }
      out := out + YearRecords(year.value, tableMap[p].1);
    }
    assert tableMap[..|tableMap|] == tableMap;
    if |tableMap| == 0 {
      return Err(ValueError("No objects to concatenate"));
    }
    return Ok(Divide(PivotYears(out), 10000.0));
  }

  /** The records at (r, c) of two record lists laid end to end. */
  lemma {:induction false} MatchesAppend(a: seq<Record<string, int>>, b: seq<Record<string, int>>, r: string, c: int)
    ensures Matches(a + b, r, c) == Matches(a, r, c) + Matches(b, r, c)
  {
    if |b| > 0 {
      var n := |b| - 1;
      assert (a + b)[..|a + b| - 1] == a + b[..n];
      MatchesAppend(a, b[..n], r, c);
    } else {
      assert a + b == a;
    }
  }

  /** Yearly tables none of whose years gives column `c` contribute nothing at `c`. */
  lemma {:induction false} MergedNoMatch(tableMap: seq<(string, seq<(string, real)>)>, r: string, c: int)
    requires MergedRecords(tableMap).Ok?
    requires forall p :: 0 <= p < |tableMap| ==> ParseInt(tableMap[p].0).value - 2000 != c
    ensures Matches(MergedRecords(tableMap).value, r, c) == []
  {
    if |tableMap| > 0 {
      var n := |tableMap| - 1;
      var front := tableMap[..n];
      assert forall p :: 0 <= p < n ==> front[p] == tableMap[p];
      MergedNoMatch(front, r, c);
      var year := ParseInt(tableMap[n].0).value;
      var last := YearRecords(year, tableMap[n].1);
      MatchesAppend(MergedRecords(front).value, last, r, c);
      assert Matches(last, r, c) == [];
    }
  }

  lemma MergedRecordsLast(tableMap: seq<(string, seq<(string, real)>)>)
    requires |tableMap| > 0 && MergedRecords(tableMap).Ok?
    ensures var n := |tableMap| - 1;
            MergedRecords(tableMap)
              == Ok(MergedRecords(tableMap[..n]).value + YearRecords(ParseInt(tableMap[n].0).value, tableMap[n].1))
  {
  }

  /** A year's rows sit in that year's column only. */
  lemma OtherYearNoMatch(year: int, rows: seq<(string, real)>, r: string, c: int)
    requires year - 2000 != c
    ensures Matches(YearRecords(year, rows), r, c) == []
  {
  }

  /** No two yearly tables are keyed by the same year. */
  predicate DistinctYears(tableMap: seq<(string, seq<(string, real)>)>)
    requires forall p :: 0 <= p < |tableMap| ==> ParseInt(tableMap[p].0).Ok?
  {
    forall p1, p2 :: 0 <= p1 < p2 < |tableMap| ==>
      ParseInt(tableMap[p1].0).value != ParseInt(tableMap[p2].0).value
  }

  lemma DistinctYearsPrefix(tableMap: seq<(string, seq<(string, real)>)>)
    requires |tableMap| > 0
    requires forall p :: 0 <= p < |tableMap| ==> ParseInt(tableMap[p].0).Ok?
    requires DistinctYears(tableMap)
    ensures var front := tableMap[..|tableMap| - 1];
            (forall p :: 0 <= p < |front| ==> ParseInt(front[p].0).Ok?) && DistinctYears(front)
  {
    var front := tableMap[..|tableMap| - 1];
    assert forall p :: 0 <= p < |front| ==> front[p] == tableMap[p];
  }

  /** Yearly tables with distinct years, each listing a name once: the year's row for a
      name is the only record at (name, year - 2000). */
  lemma {:induction false} MergedMatches(tableMap: seq<(string, seq<(string, real)>)>, p: nat, q: nat)
    requires MergedRecords(tableMap).Ok?
    requires p < |tableMap| && q < |tableMap[p].1|
    requires DistinctYears(tableMap)
    requires forall q' :: 0 <= q' < |tableMap[p].1| && q' != q ==> tableMap[p].1[q'].0 != tableMap[p].1[q].0
    ensures Matches(MergedRecords(tableMap).value, tableMap[p].1[q].0, ParseInt(tableMap[p].0).value - 2000)
            == [tableMap[p].1[q].1]
  {
    var n := |tableMap| - 1;
    if p < n {
      var front := tableMap[..n];
      DistinctYearsPrefix(tableMap);
      assert front[p] == tableMap[p];
      MergedMatches(front, p, q);
      MergedStepEarlier(tableMap, tableMap[p].1[q].0, ParseInt(tableMap[p].0).value - 2000, tableMap[p].1[q].1);
    } else {
      MergedStepLast(tableMap, q);
    }
  }

  /** A later year adds nothing at an earlier year's column. */
  lemma MergedStepEarlier(tableMap: seq<(string, seq<(string, real)>)>, name: string, c: int, v: real)
    requires |tableMap| > 0 && MergedRecords(tableMap).Ok?
    requires ParseInt(tableMap[|tableMap| - 1].0).value - 2000 != c
    requires Matches(MergedRecords(tableMap[..|tableMap| - 1]).value, name, c) == [v]
    ensures Matches(MergedRecords(tableMap).value, name, c) == [v]
  {
    var n := |tableMap| - 1;
    var last := YearRecords(ParseInt(tableMap[n].0).value, tableMap[n].1);
    MergedRecordsLast(tableMap);
    MatchesAppend(MergedRecords(tableMap[..n]).value, last, name, c);
    OtherYearNoMatch(ParseInt(tableMap[n].0).value, tableMap[n].1, name, c);
  }

  /** The last year's row for a name listed once is the only record in its column. */
  lemma MergedStepLast(tableMap: seq<(string, seq<(string, real)>)>, q: nat)
    requires |tableMap| > 0 && MergedRecords(tableMap).Ok?
    requires q < |tableMap[|tableMap| - 1].1|
    requires forall p :: 0 <= p < |tableMap| - 1 ==>
               ParseInt(tableMap[p].0).value != ParseInt(tableMap[|tableMap| - 1].0).value
    requires var rows := tableMap[|tableMap| - 1].1;
             forall q' :: 0 <= q' < |rows| && q' != q ==> rows[q'].0 != rows[q].0
    ensures var n := |tableMap| - 1;
            Matches(MergedRecords(tableMap).value, tableMap[n].1[q].0, ParseInt(tableMap[n].0).value - 2000)
              == [tableMap[n].1[q].1]
  {
    var n := |tableMap| - 1;
    var front := tableMap[..n];
    var name := tableMap[n].1[q].0;
    var c := ParseInt(tableMap[n].0).value - 2000;
    var last := YearRecords(ParseInt(tableMap[n].0).value, tableMap[n].1);
    MergedRecordsLast(tableMap);
    MatchesAppend(MergedRecords(front).value, last, name, c);
    assert Matches(MergedRecords(front).value, name, c) == [] by {
      assert forall p' :: 0 <= p' < n ==> front[p'] == tableMap[p'];
      MergedNoMatch(front, name, c);
    }
    MatchesSingle(last, q, name, c);
  }

  /** The merged table holds, at (name, year - 2000), that year's area in hectares. */
  lemma SmallMergedCell(tableMap: seq<(string, seq<(string, real)>)>, p: nat, q: nat)
    requires p < |tableMap| && q < |tableMap[p].1|
    requires forall p' :: 0 <= p' < |tableMap| ==> ParseInt(tableMap[p'].0).Ok?
    requires forall p1, p2 :: 0 <= p1 < p2 < |tableMap| ==>
               ParseInt(tableMap[p1].0).value != ParseInt(tableMap[p2].0).value
    requires forall q' :: 0 <= q' < |tableMap[p].1| && q' != q ==> tableMap[p].1[q'].0 != tableMap[p].1[q].0
    ensures SmallMergedOf(tableMap).Ok?
    ensures var f := SmallMergedOf(tableMap).value;
            var name := tableMap[p].1[q].0;
            var c := ParseInt(tableMap[p].0).value - 2000;
            name in f.index && c in f.columns && At(f, name, c) == Some(tableMap[p].1[q].1 / 10000.0)
  {
    var records := MergedRecords(tableMap).value;
    var name := tableMap[p].1[q].0;
    var c := ParseInt(tableMap[p].0).value - 2000;
    assert Matches(records, name, c) == [tableMap[p].1[q].1] by {
      MergedMatches(tableMap, p, q);
    }
    SingleMatchCell(records, name, c, tableMap[p].1[q].1);
    assert SmallMergedOf(tableMap) == Ok(Divide(PivotYears(records), 10000.0));
  }

  /** A name and column with one record hold that record's value in hectares. */
  lemma SingleMatchCell(records: seq<Record<string, int>>, name: string, c: int, v: real)
    requires Matches(records, name, c) == [v]
    ensures var f := Divide(PivotYears(records), 10000.0);
            name in f.index && c in f.columns && At(f, name, c) == Some(v / 10000.0)
  {
    var k := MatchWitness(records, name, c);
    PivotYearsAt(records, k);
    MeanSingle(v);
  }

  /** A record that matches (r, c), given that some record does. */
  lemma MatchWitness(records: seq<Record<string, int>>, r: string, c: int) returns (k: nat)
    requires |Matches(records, r, c)| > 0
    ensures k < |records| && records[k].row == r && records[k].col == c
  {
    k :| 0 <= k < |records| && records[k].row == r && records[k].col == c;
  }

  /** The year pivot at a record's name and column is the mean of the records there. */
  lemma PivotYearsAt(records: seq<Record<string, int>>, k: nat)
    requires k < |records|
    ensures var f := PivotYears(records);
            records[k].row in f.index && records[k].col in f.columns &&
            At(f, records[k].row, records[k].col) == Mean(Matches(records, records[k].row, records[k].col))
  {
    var f := PivotYears(records);
    assert RowLabels(records)[k] == records[k].row;
    assert records[k].row in Elements(f.index);
    assert ColLabels(records)[k] == records[k].col;
    PivotAt(records, f.index, f.columns, records[k].row, records[k].col);
  }

  // ---- large regions: the table of "name|year" area values ----

  /** One `value_map` item: the key `name|year` and the area in m², as a record in hectares. */
  function KeyRecord(key: string, area: real): (r: Result<Record<string, int>>)
    ensures r.Ok? <==> SplitTwo(key, '|').Ok? && ParseInt(SplitTwo(key, '|').value.1).Ok?
    ensures r.Err? ==> r.error.ValueError?
  {
    match SplitTwo(key, '|')
    case Err(e) => Err(e)
    case Ok((name, year)) =>
      match ParseInt(year)
      case Err(e) => Err(e)
      case Ok(y) => Ok(Record(name, y - 2000, area / 10000.0))
  }

  /** The partition key of a name and a year gives back that name, the year offset from
      2000 and the area in hectares. */
  lemma KeyRecordOfKey(name: string, year: int, area: real)
    requires '|' !in name
    ensures KeyRecord(name + "|" + Show(year), area) == Ok(Record(name, year - 2000, area / 10000.0))
  {
    ShowAvoids(year, '|');
    SplitTwoJoin(name, Show(year), '|');
    assert name + "|" + Show(year) == name + ['|'] + Show(year);
    ParseShow(year);
  }

  /** The loop of the large `area_table` over the value map; the first bad key raises. */
  function LargeRecords(valueMap: seq<(string, real)>): (r: Result<seq<Record<string, int>>>)
    ensures r.Ok? <==> forall k :: 0 <= k < |valueMap| ==> KeyRecord(valueMap[k].0, valueMap[k].1).Ok?
    ensures r.Err? ==> r.error.ValueError?
    ensures r.Ok? ==> |r.value| == |valueMap| &&
                      forall k :: 0 <= k < |valueMap| ==> r.value[k] == KeyRecord(valueMap[k].0, valueMap[k].1).value
  {
    if |valueMap| == 0 then Ok([])
    else
      var n := |valueMap| - 1;
      assert forall k :: 0 <= k < n ==> valueMap[..n][k] == valueMap[k];
      match LargeRecords(valueMap[..n])
      case Err(e) => Err(e)
      case Ok(prev) =>
        match KeyRecord(valueMap[n].0, valueMap[n].1)
        case Err(e) => Err(e)
        case Ok(rec) => Ok(prev + [rec])
  }

  lemma LargeRecordsStep(valueMap: seq<(string, real)>)
    requires |valueMap| > 0 && LargeRecords(valueMap[..|valueMap| - 1]).Err?
    ensures LargeRecords(valueMap) == LargeRecords(valueMap[..|valueMap| - 1])
  {
  }

  /** Once a prefix of the value map fails, the whole table fails with that error. */
  lemma {:induction false} LargeRecordsErr(valueMap: seq<(string, real)>, k: nat)
    requires k <= |valueMap| && LargeRecords(valueMap[..k]).Err?
    ensures LargeRecords(valueMap) == LargeRecords(valueMap[..k])
  {
    var n := |valueMap| - 1;
    if k <= n {
      var front := valueMap[..n];
      assert front[..k] == valueMap[..k];
      LargeRecordsErr(front, k);
      LargeRecordsStep(valueMap);
    } else {
      assert valueMap[..k] == valueMap;
    }
  }

  /** The large `area_table`: with no value the frame has no "area" column, the first
      thing `pivot_table` looks up. */
  function LargeAreaTableOf(valueMap: seq<(string, real)>): Result<Frame<string, int>>
  {
    match LargeRecords(valueMap)
    case Err(e) => Err(e)
    case Ok(records) => if |records| == 0 then Err(KeyError("area")) else Ok(PivotYears(records))
  }

  /** The loop of the large `area_table` that appends one row per value. */
  method LargeAreaTable(valueMap: seq<(string, real)>) returns (r: Result<Frame<string, int>>)
    ensures r == LargeAreaTableOf(valueMap)
  {
    var rows: seq<Record<string, int>> := [];
    for k := 0 to |valueMap|
      invariant LargeRecords(valueMap[..k]) == Ok(rows)
    {
      assert valueMap[..k + 1][..k] == valueMap[..k];
      var rec := KeyRecord(valueMap[k].0, valueMap[k].1);
      if rec.Err? {
        LargeRecordsErr(valueMap, k + 1);
        return Err(rec.error);
      }
      rows := rows + [rec.value];
    }
    assert valueMap[..|valueMap|] == valueMap;
    if |rows| == 0 {
      return Err(KeyError("area"));
    }
    return Ok(PivotYears(rows));
  }

  /** The value-map item (key, area) parses to a record at (name, c). */
  predicate KeyAt(key: string, area: real, name: string, c: int)
  {
    KeyRecord(key, area).Ok? && KeyRecord(key, area).value.row == name && KeyRecord(key, area).value.col == c
  }

  /** With keys of the form `label|year`, the large table's cell (label, year - 2000) is the
      area of that key in hectares, when no other key names the same label and year. */
  /** The frame has row `name` and column `c`, and the cell there holds `v`. */
  predicate CellIs<R(==), C(==)>(f: Frame<R, C>, name: R, c: C, v: real)
  {
    Shaped(f) && name in f.index && c in f.columns && At(f, name, c) == Some(v)
  }

  lemma LargeAreaCell(valueMap: seq<(string, real)>, k: nat, name: string, year: int)
    returns (f: Frame<string, int>)
    requires k < |valueMap| && '|' !in name && valueMap[k].0 == name + "|" + Show(year)
    requires forall k' :: 0 <= k' < |valueMap| ==> KeyRecord(valueMap[k'].0, valueMap[k'].1).Ok?
    requires forall k' :: 0 <= k' < |valueMap| && k' != k ==> !KeyAt(valueMap[k'].0, valueMap[k'].1, name, year - 2000)
    ensures LargeAreaTableOf(valueMap) == Ok(f)
    ensures CellIs(f, name, year - 2000, valueMap[k].1 / 10000.0)
  {
    assert KeyRecord(valueMap[k].0, valueMap[k].1) == Ok(Record(name, year - 2000, valueMap[k].1 / 10000.0)) by {
      KeyRecordOfKey(name, year, valueMap[k].1);
    }
    f := LargeCellOfItem(valueMap, k, name, year - 2000, valueMap[k].1 / 10000.0);
  }

  /** Item `k` parses to the record (name, c, v), every item parses and no other item is at
      (name, c): the table holds `v` there. */
  lemma LargeCellOfItem(valueMap: seq<(string, real)>, k: nat, name: string, c: int, v: real)
    returns (f: Frame<string, int>)
    requires k < |valueMap| && KeyRecord(valueMap[k].0, valueMap[k].1) == Ok(Record(name, c, v))
    requires forall k' :: 0 <= k' < |valueMap| ==> KeyRecord(valueMap[k'].0, valueMap[k'].1).Ok?
    requires forall k' :: 0 <= k' < |valueMap| && k' != k ==> !KeyAt(valueMap[k'].0, valueMap[k'].1, name, c)
    ensures LargeAreaTableOf(valueMap) == Ok(f)
    ensures CellIs(f, name, c, v)
  {
    var records := LargeRecords(valueMap).value;
    LargeRecordsSingle(valueMap, k, name, c);
    f := LargeCellOfRecords(valueMap, records, k, name, c, v);
  }

  lemma LargeCellOfRecords(valueMap: seq<(string, real)>, records: seq<Record<string, int>>, k: nat,
                           name: string, c: int, v: real)
    returns (f: Frame<string, int>)
    requires LargeRecords(valueMap) == Ok(records) && k < |records| && records[k] == Record(name, c, v)
    requires Mean(Matches(records, name, c)) == Some(v)
    ensures LargeAreaTableOf(valueMap) == Ok(f)
    ensures CellIs(f, name, c, v)
  {
    PivotYearsAt(records, k);
    f := PivotYears(records);
  }

  /** The only record at (name, c) is the mean there. */
  lemma LargeRecordsSingle(valueMap: seq<(string, real)>, k: nat, name: string, c: int)
    requires LargeRecords(valueMap).Ok? && k < |valueMap| && KeyAt(valueMap[k].0, valueMap[k].1, name, c)
    requires forall k' :: 0 <= k' < |valueMap| && k' != k ==> !KeyAt(valueMap[k'].0, valueMap[k'].1, name, c)
    ensures var records := LargeRecords(valueMap).value;
            records[k].row == name && records[k].col == c &&
            Mean(Matches(records, name, c)) == Some(records[k].value)
  {
    var records := LargeRecords(valueMap).value;
    forall k' | 0 <= k' < |records| && k' != k
      ensures !(records[k'].row == name && records[k'].col == c)
    {
      assert !KeyAt(valueMap[k'].0, valueMap[k'].1, name, c);
    }
    MatchesSingle(records, k, name, c);
  }

  /** The large table's cell at a label and year no key names is NaN: no zero fill here. */
  lemma LargeAreaAbsent(valueMap: seq<(string, real)>, name: string, c: int)
    requires LargeAreaTableOf(valueMap).Ok?
    requires name in LargeAreaTableOf(valueMap).value.index && c in LargeAreaTableOf(valueMap).value.columns
    requires forall k :: 0 <= k < |valueMap| ==> !KeyAt(valueMap[k].0, valueMap[k].1, name, c)
    ensures At(LargeAreaTableOf(valueMap).value, name, c).None?
  {
    var records := LargeRecords(valueMap).value;
    var f := PivotYears(records);
    PivotAt(records, f.index, f.columns, name, c);
  }

  /** In the large fraction table, a year column with a positive area sums to 1 and holds
      fractions in [0, 1], when no area is negative. */
  lemma LargeFracColumn(valueMap: seq<(string, real)>, i: nat, j: nat)
    requires LargeAreaTableOf(valueMap).Ok?
    requires var f := LargeAreaTableOf(valueMap).value;
             i < |f.index| && j < |f.columns| && f.values[i][j].Some? && f.values[i][j].value > 0.0
    requires var f := LargeAreaTableOf(valueMap).value;
             forall k :: 0 <= k < |f.index| && f.values[k][j].Some? ==> f.values[k][j].value >= 0.0
    ensures var f := LargeAreaTableOf(valueMap).value;
            SumSkipNa(Column(DivideColumns(f), j)) == 1.0 &&
            forall k :: 0 <= k < |f.index| && f.values[k][j].Some? ==>
              DivideColumns(f).values[k][j].Some? && 0.0 <= DivideColumns(f).values[k][j].value <= 1.0
  {
    var f := LargeAreaTableOf(valueMap).value;
    CellAtMostSum(Column(f, j), i);
    ColumnsSumToOne(f, j);
    forall k | 0 <= k < |f.index| && f.values[k][j].Some?
      ensures DivideColumns(f).values[k][j].Some? && 0.0 <= DivideColumns(f).values[k][j].value <= 1.0
    {
      FractionBounds(f, k, j);
    }
  }
}
