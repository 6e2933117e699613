/** `area_table_merged` of the national assets: every year's area table becomes one column,
    the columns in the sorted order of the partition keys, the rows are the transition ids
    of all years relabelled through `label_map`, and the "null" row (id 0, the background)
    is dropped. A year's table is given by its (transition id, total area) rows. The row
    order of `pd.concat` on differing indexes is the first-appearance order of the ids
    (pandas 2 with `sort=False`). */
module MergedAreas {
  import opened Wrappers
  import opened Sorting
  import opened TransitionCodes
  import opened Frames

  /** One year's `area_table`, indexed by transition id: (id, total area) per row. */
  type AreaSeries = seq<(int, real)>

  function Ids(s: AreaSeries): (ids: seq<int>)
    ensures |ids| == |s| && forall q :: 0 <= q < |s| ==> ids[q] == s[q].0
  {
    seq(|s|, q requires 0 <= q < |s| => s[q].0)
  }

  predicate UniqueIds(s: AreaSeries)
  {
    forall p, q :: 0 <= p < q < |s| ==> s[p].0 != s[q].0
  }

  /** Every series lists the same ids in the same order: `concat` then needs no reindexing. */
  predicate SameIds(series: seq<AreaSeries>)
  {
    forall i :: 0 <= i < |series| ==> Ids(series[i]) == Ids(series[0])
  }

  // ---- the sorted partition keys ----

  function Keys<V>(items: seq<(string, V)>): (ks: seq<string>)
    ensures |ks| == |items| && forall p :: 0 <= p < |items| ==> ks[p] == items[p].0
  {
    seq(|items|, p requires 0 <= p < |items| => items[p].0)
  }

  /** `area_table_map[key]`; every key the loop visits is present, so the empty
      default is never taken. */
  function SeriesAt(tableMap: seq<(string, AreaSeries)>, key: string): AreaSeries
  {
    match Lookup(tableMap, key)
    case Some(s) => s
    case None => []
  }

  /** `sorted(list(area_table_map.keys()))`. */
  function SortedKeys(tableMap: seq<(string, AreaSeries)>): (ks: seq<string>)
    ensures StrictlySorted(ks) && Elements(ks) == Elements(Keys(tableMap))
  {
    SortedSet(Keys(tableMap))
  }

  /** Every sorted key is a key of the map, so its series is the one the map holds. */
  lemma SortedKeyPresent(tableMap: seq<(string, AreaSeries)>, i: nat)
    requires i < |SortedKeys(tableMap)|
    ensures Lookup(tableMap, SortedKeys(tableMap)[i]) == Some(SeriesAt(tableMap, SortedKeys(tableMap)[i]))
  {
    var key := SortedKeys(tableMap)[i];
    assert key in Elements(Keys(tableMap));
    var p :| 0 <= p < |tableMap| && Keys(tableMap)[p] == key;
    assert tableMap[p].0 == key;
  }

  /** The loop of `area_table_merged`: the series of the i-th sorted key, for every i. */
  method CollectSeries(tableMap: seq<(string, AreaSeries)>) returns (out: seq<AreaSeries>)
    ensures |out| == |SortedKeys(tableMap)|
    ensures forall i :: 0 <= i < |out| ==> Lookup(tableMap, SortedKeys(tableMap)[i]) == Some(out[i])
  {
    var keys := SortedKeys(tableMap);
    out := [];
    for i := 0 to |keys|
      invariant |out| == i
      invariant forall i' :: 0 <= i' < i ==> Lookup(tableMap, keys[i']) == Some(out[i'])
    {
      SortedKeyPresent(tableMap, i);
      out := out + [Lookup(tableMap, keys[i]).value];
    }
  }

  /** The series in the order of the sorted keys: series i becomes column i. */
  function SortedSeries(tableMap: seq<(string, AreaSeries)>): (series: seq<AreaSeries>)
    ensures |series| == |SortedKeys(tableMap)|
    ensures forall i :: 0 <= i < |series| ==> series[i] == SeriesAt(tableMap, SortedKeys(tableMap)[i])
  {
    var keys := SortedKeys(tableMap);
    seq(|keys|, i requires 0 <= i < |keys| => SeriesAt(tableMap, keys[i]))
  }

  // ---- pd.concat(out, axis=1) ----

  /** The ids of `s` that `acc` does not hold yet, appended in their order. */
  function AddIds(acc: seq<int>, s: AreaSeries): (r: seq<int>)
    ensures NoDuplicates(acc) ==> NoDuplicates(r)
    ensures forall x :: x in r <==> x in acc || x in Ids(s)
  {
    if |s| == 0 then acc
    else
      var n := |s| - 1;
      assert Ids(s) == Ids(s[..n]) + [s[n].0];
      var r := AddIds(acc, s[..n]);
      if s[n].0 in r then r else r + [s[n].0]
  }

  /** The union of the ids of all series, in the order of first appearance. */
  function UnionIds(series: seq<AreaSeries>): (ids: seq<int>)
    ensures NoDuplicates(ids)
    ensures forall x :: x in ids <==> exists i :: 0 <= i < |series| && x in Ids(series[i])
  {
    if |series| == 0 then []
    else
      var n := |series| - 1;
      assert forall i :: 0 <= i < n ==> series[..n][i] == series[i];
      AddIds(UnionIds(series[..n]), series[n])
  }

  const DuplicateLabels := "cannot reindex on an axis with duplicate labels"

  /** `range(k)`, the column labels `series.rename(i)` gives. */
  function Range(k: nat): (s: seq<int>)
    ensures |s| == k && forall i :: 0 <= i < k ==> s[i] == i
  {
    seq(k, i requires 0 <= i < k => i)
  }

  /** `pd.concat(out, axis=1)` of at least one series: identical indexes are kept as they
      are and the cells side by side; otherwise every series is reindexed on the union of
      the ids, NaN where it lacks one; reindexing a series whose ids repeat is pandas'
      ValueError. */
  function Concat(series: seq<AreaSeries>): (r: Result<Frame<int, int>>)
    requires |series| > 0
  {
    var k := |series|;
    if SameIds(series) then
      var n := |series[0]|;
      Ok(Frame(Ids(series[0]), Range(k),
               seq(n, p requires 0 <= p < n =>
                 seq(k, i requires 0 <= i < k => Some(series[i][p].1)))))
    else if exists i :: 0 <= i < k && !UniqueIds(series[i]) then Err(ValueError(DuplicateLabels))
    else
      var ids := UnionIds(series);
      Ok(Frame(ids, Range(k),
               seq(|ids|, p requires 0 <= p < |ids| =>
                 seq(k, i requires 0 <= i < k => Lookup(series[i], ids[p])))))
  }

  // ---- label_map and the "null" row ----

  /** `label_map`: `{i + 1: LABEL_LIST[i]}` and then `label_map[0] = "null"`. */
  function LabelMap(labels: seq<string>): seq<(int, string)>
  {
    seq(|labels|, i requires 0 <= i < |labels| => (i + 1, labels[i])) + [(0, "null")]
  }

  /** `.map(label_map)` on one id: an id the map lacks becomes NaN (`None`). */
  function LabelOf(labels: seq<string>, id: int): Option<string>
  {
    Lookup(LabelMap(labels), id)
  }

  /** The frame with its ids replaced by their labels. */
  function Relabel(labels: seq<string>, f: Frame<int, int>): (g: Frame<Option<string>, int>)
    ensures |g.index| == |f.index| && forall p :: 0 <= p < |f.index| ==> g.index[p] == LabelOf(labels, f.index[p])
    ensures g.columns == f.columns && g.values == f.values
  {
    Frame(seq(|f.index|, p requires 0 <= p < |f.index| => LabelOf(labels, f.index[p])), f.columns, f.values)
  }

  /** The frame without its last row. */
  function Init<R, C>(f: Frame<R, C>): (g: Frame<R, C>)
    requires |f.index| > 0 && Shaped(f)
    ensures Shaped(g)
  {
    Frame(f.index[..|f.index| - 1], f.columns, f.values[..|f.index| - 1])
  }

  /** Every row labelled `x` removed, the other rows kept in order. */
  function DropRows<R(==, !new), C>(f: Frame<R, C>, x: R): (g: Frame<R, C>)
    requires Shaped(f)
    ensures Shaped(g) && g.columns == f.columns
    ensures forall y :: y in g.index <==> y in f.index && y != x
    decreases |f.index|
  {
    if |f.index| == 0 then f
    else
      var n := |f.index| - 1;
      var g := DropRows(Init(f), x);
      if f.index[n] == x then g
      else Frame(g.index + [f.index[n]], f.columns, g.values + [f.values[n]])
  }

  /** `.drop(index=["null"])`: a missing label raises KeyError. */
  function DropNull(f: Frame<Option<string>, int>): (r: Result<Frame<Option<string>, int>>)
    requires Shaped(f)
  {
    if Some("null") in f.index then Ok(DropRows(f, Some("null"))) else Err(KeyError("null"))
  }

  /** `area_table_merged` on a map from partition keys to their yearly area tables. */
  function MergedOf(labels: seq<string>, tableMap: seq<(string, AreaSeries)>): Result<Frame<Option<string>, int>>
  {
    var series := SortedSeries(tableMap);
    if |series| == 0 then Err(ValueError("No objects to concatenate"))
    else
      match Concat(series)
      case Err(e) => Err(e)
      case Ok(f) =>
        ConcatShaped(series);
        DropNull(Relabel(labels, f))
  }

  /** `area_table_merged`: the series are collected in a loop, then concatenated,
      relabelled and stripped of the "null" row. */
  method AreaTableMerged(labels: seq<string>, tableMap: seq<(string, AreaSeries)>)
    returns (r: Result<Frame<Option<string>, int>>)
    ensures r == MergedOf(labels, tableMap)
  {
    var out := CollectSeries(tableMap);
    assert out == SortedSeries(tableMap);
    if |out| == 0 {
      return Err(ValueError("No objects to concatenate"));
    }
    var concat := Concat(out);
    if concat.Err? {
      return Err(concat.error);
    }
    ConcatShaped(out);
    r := DropNull(Relabel(labels, concat.value));
  }

  lemma ConcatShaped(series: seq<AreaSeries>)
    requires |series| > 0 && Concat(series).Ok?
    ensures Shaped(Concat(series).value)
  {
  }

  // ---- what the merged table holds ----

  /** `label_map` sends 0 to "null", 1..N to the taxonomy labels, and has no other key. */
  lemma LabelOfId(labels: seq<string>, id: int)
    ensures LabelOf(labels, id) == if id == 0 then Some("null")
                                   else if 1 <= id <= |labels| then Some(labels[id - 1])
                                   else None
  {
    var items := LabelMap(labels);
    assert forall p, q :: 0 <= p < q < |items| ==> items[p].0 != items[q].0;
    if id == 0 {
      LookupUnique(items, |labels|);
    } else if 1 <= id <= |labels| {
      LookupUnique(items, id - 1);
    } else {
      assert forall q :: 0 <= q < |items| ==> items[q].0 != id;
    }
  }

  /** The rows of the concatenation are the ids of the years, each once when no year
      repeats an id. */
  lemma ConcatIndex(series: seq<AreaSeries>)
    requires |series| > 0 && Concat(series).Ok?
    ensures forall x :: x in Concat(series).value.index <==>
              exists i :: 0 <= i < |series| && x in Ids(series[i])
    ensures (forall i :: 0 <= i < |series| ==> UniqueIds(series[i])) ==> NoDuplicates(Concat(series).value.index)
  {
    if SameIds(series) {
      forall x | exists i :: 0 <= i < |series| && x in Ids(series[i])
        ensures x in Ids(series[0])
      {
        var i :| 0 <= i < |series| && x in Ids(series[i]);
        assert Ids(series[i]) == Ids(series[0]);
      }
    }
  }

  /** With ids that do not repeat, the concatenation holds at (id, i) what year i's table
      holds for that id, NaN if it lacks it. */
  lemma ConcatAt(series: seq<AreaSeries>, id: int, i: nat)
    requires |series| > 0 && i < |series| && forall i' :: 0 <= i' < |series| ==> UniqueIds(series[i'])
    requires exists i' :: 0 <= i' < |series| && id in Ids(series[i'])
    ensures Concat(series).Ok?
    ensures var f := Concat(series).value;
            Shaped(f) && id in f.index && i in f.columns && At(f, id, i) == Lookup(series[i], id)
  {
    ConcatIndex(series);
    var f := Concat(series).value;
    assert Range(|series|)[i] == i;
    if SameIds(series) {
      var p := IndexOf(f.index, id);
      assert Ids(series[i]) == Ids(series[0]);
      assert series[i][p].0 == id;
      LookupUnique(series[i], p);
    }
  }

  /** Relabelling keeps a row whose label no other row receives. */
  lemma RelabelAt(labels: seq<string>, f: Frame<int, int>, id: int, c: int)
    requires Shaped(f) && id in f.index && c in f.columns
    requires forall id' :: id' in f.index && id' != id ==> LabelOf(labels, id') != LabelOf(labels, id)
    ensures LabelOf(labels, id) in Relabel(labels, f).index
    ensures At(Relabel(labels, f), LabelOf(labels, id), c) == At(f, id, c)
  {
    var g := Relabel(labels, f);
    var p := IndexOf(f.index, id);
    assert g.index[p] == LabelOf(labels, id);
    var k := IndexOf(g.index, LabelOf(labels, id));
    assert f.index[k] == id;
  }

  /** Dropping rows labelled `x` keeps every other row's cells. */
  lemma {:induction false} DropRowsAt<R(!new), C>(f: Frame<R, C>, x: R, y: R, c: C)
    requires Shaped(f) && y in f.index && y != x && c in f.columns
    ensures y in DropRows(f, x).index && At(DropRows(f, x), y, c) == At(f, y, c)
    decreases |f.index|
  {
    var n := |f.index| - 1;
    var front := Init(f);
    var g' := DropRows(front, x);
    assert f.index == front.index + [f.index[n]];
    if y in front.index {
      DropRowsAt(front, x, y, c);
      IndexOfAppend(front.index, f.index[n], y);
      if f.index[n] != x {
        IndexOfAppend(g'.index, f.index[n], y);
      }
    } else {
      assert y == f.index[n] && y !in g'.index;
      var g := DropRows(f, x);
      assert g.index == g'.index + [y];
      assert IndexOf(g.index, y) == |g'.index|;
    }
  }

  /** The labels of the relabelled rows are the labels of the ids. */
  lemma RelabelIndex(labels: seq<string>, f: Frame<int, int>)
    ensures forall y :: y in Relabel(labels, f).index <==> exists id :: id in f.index && LabelOf(labels, id) == y
  {
    var g := Relabel(labels, f);
    forall y ensures y in g.index <==> exists id :: id in f.index && LabelOf(labels, id) == y {
      if y in g.index {
        var p :| 0 <= p < |g.index| && g.index[p] == y;
        assert f.index[p] in f.index;
      }
      if exists id :: id in f.index && LabelOf(labels, id) == y {
        var id :| id in f.index && LabelOf(labels, id) == y;
        var p :| 0 <= p < |f.index| && f.index[p] == id;
        assert g.index[p] == y;
      }
    }
  }

  /** Every row of the merged table is the label of an id some year reports, and it is
      not "null". */
  lemma MergedRowsFrom(labels: seq<string>, tableMap: seq<(string, AreaSeries)>)
    requires MergedOf(labels, tableMap).Ok?
    ensures var series := SortedSeries(tableMap);
            forall y :: y in MergedOf(labels, tableMap).value.index ==>
              y != Some("null") &&
              exists i, id :: 0 <= i < |series| && id in Ids(series[i]) && LabelOf(labels, id) == y
  {
    var series := SortedSeries(tableMap);
    var f := Concat(series).value;
    ConcatIndex(series);
    RelabelIndex(labels, f);
  }

  /** The label of every id some year reports is a row, unless it is "null". */
  lemma MergedRowOfId(labels: seq<string>, tableMap: seq<(string, AreaSeries)>, i: nat, id: int)
    requires MergedOf(labels, tableMap).Ok?
    requires var series := SortedSeries(tableMap);
             i < |series| && id in Ids(series[i]) && LabelOf(labels, id) != Some("null")
    ensures LabelOf(labels, id) in MergedOf(labels, tableMap).value.index
  {
    var series := SortedSeries(tableMap);
    var f := Concat(series).value;
    assert id in f.index by {
      ConcatIndex(series);
    }
    var g := Relabel(labels, f);
    assert LabelOf(labels, id) in g.index by {
      RelabelIndex(labels, f);
    }
    ConcatShaped(series);
    assert MergedOf(labels, tableMap) == DropNull(g);
  }

  /** When every id the years report is background or a taxonomy code, the rows are
      taxonomy labels only. */
  lemma MergedRowsAreLabels(labels: seq<string>, tableMap: seq<(string, AreaSeries)>)
    requires MergedOf(labels, tableMap).Ok?
    requires var series := SortedSeries(tableMap);
             forall i, id :: 0 <= i < |series| && id in Ids(series[i]) ==> 0 <= id <= |labels|
    ensures forall y :: y in MergedOf(labels, tableMap).value.index ==> y.Some? && y.value in labels
  {
    var series := SortedSeries(tableMap);
    MergedRowsFrom(labels, tableMap);
    forall y | y in MergedOf(labels, tableMap).value.index
      ensures y.Some? && y.value in labels
    {
      var i, id :| 0 <= i < |series| && id in Ids(series[i]) && LabelOf(labels, id) == y;
      LabelOfId(labels, id);
    }
  }

  /** Column i of the merged table is the year of the i-th sorted partition key: at the
      row of a taxonomy label it holds that year's area for the label's id, NaN if the
      year lacks it. */
  lemma MergedCell(labels: seq<string>, tableMap: seq<(string, AreaSeries)>, i: nat, id: int)
    requires MergedOf(labels, tableMap).Ok?
    requires Distinct(labels) && "null" !in labels
    requires var series := SortedSeries(tableMap);
             (forall i' :: 0 <= i' < |series| ==> UniqueIds(series[i']))
             && i < |series| && 1 <= id <= |labels|
             && exists i' :: 0 <= i' < |series| && id in Ids(series[i'])
    ensures var f := MergedOf(labels, tableMap).value;
            var key := SortedKeys(tableMap)[i];
            Shaped(f) && Some(labels[id - 1]) in f.index && i in f.columns
            && At(f, Some(labels[id - 1]), i) == Lookup(SeriesAt(tableMap, key), id)
  {
    var series := SortedSeries(tableMap);
    ConcatAt(series, id, i);
    var f := Concat(series).value;
    LabelOfId(labels, id);
    forall id' | id' in f.index && id' != id
      ensures LabelOf(labels, id') != LabelOf(labels, id)
    {
      LabelOfId(labels, id');
      if 1 <= id' <= |labels| {
        DistinctAt(labels, id - 1, id' - 1);
      }
    }
    RelabelAt(labels, f, id, i);
    var g := Relabel(labels, f);
    DropRowsAt(g, Some("null"), Some(labels[id - 1]), i);
  }

  // ---- the error paths ----

  /** No yearly table at all is the ValueError of `pd.concat([])`, and only that. */
  lemma MergedNoTables(labels: seq<string>, tableMap: seq<(string, AreaSeries)>)
    ensures MergedOf(labels, tableMap) == Err(ValueError("No objects to concatenate")) <==> |tableMap| == 0
  {
    if |tableMap| > 0 {
      assert tableMap[0].0 in Elements(Keys(tableMap));
      assert |SortedKeys(tableMap)| > 0;
    }
  }

  /** Reindexing fails exactly when the years' ids are not identical and some year repeats
      an id. */
  lemma MergedRepeatedIds(labels: seq<string>, tableMap: seq<(string, AreaSeries)>)
    requires |tableMap| > 0
    ensures var series := SortedSeries(tableMap);
            MergedOf(labels, tableMap) == Err(ValueError(DuplicateLabels)) <==>
              !SameIds(series) && exists i :: 0 <= i < |series| && !UniqueIds(series[i])
  {
    assert tableMap[0].0 in Elements(Keys(tableMap));
    assert |SortedKeys(tableMap)| > 0;
  }

  /** With ids that do not repeat, the table exists exactly when some year reports
      background pixels (id 0, the "null" row to drop); otherwise `drop` raises KeyError. */
  lemma MergedNeedsBackground(labels: seq<string>, tableMap: seq<(string, AreaSeries)>)
    requires |tableMap| > 0 && "null" !in labels
    requires var series := SortedSeries(tableMap);
             forall i :: 0 <= i < |series| ==> UniqueIds(series[i])
    ensures var series := SortedSeries(tableMap);
            MergedOf(labels, tableMap).Ok? <==> exists i :: 0 <= i < |series| && 0 in Ids(series[i])
    ensures MergedOf(labels, tableMap).Err? ==> MergedOf(labels, tableMap) == Err(KeyError("null"))
  {
    assert tableMap[0].0 in Elements(Keys(tableMap));
    var series := SortedSeries(tableMap);
    assert |series| > 0;
    assert Concat(series).Ok?;
    ConcatIndex(series);
    NullRowOfBackground(labels, Concat(series).value);
  }

  /** Only id 0 is labelled "null", when no taxonomy label is "null". */
  lemma NullRowOfBackground(labels: seq<string>, f: Frame<int, int>)
    requires "null" !in labels
    ensures Some("null") in Relabel(labels, f).index <==> 0 in f.index
  {
    RelabelIndex(labels, f);
    forall id ensures LabelOf(labels, id) == Some("null") <==> id == 0 {
      LabelOfId(labels, id);
      if 1 <= id <= |labels| {
        assert labels[id - 1] in labels;
      }
    }
  }

  // ---- area_table_merged_frac ----

  /** In the merged fraction table, a year column with a positive area sums to 1 and holds
      fractions in [0, 1], when no area is negative. */
  lemma MergedFracColumn(labels: seq<string>, tableMap: seq<(string, AreaSeries)>, p: nat, j: nat)
    requires MergedOf(labels, tableMap).Ok?
    requires var f := MergedOf(labels, tableMap).value;
             Shaped(f) && p < |f.index| && j < |f.columns| && f.values[p][j].Some? && f.values[p][j].value > 0.0
    requires var f := MergedOf(labels, tableMap).value;
             forall k :: 0 <= k < |f.index| && f.values[k][j].Some? ==> f.values[k][j].value >= 0.0
    ensures var f := MergedOf(labels, tableMap).value;
            SumSkipNa(Column(DivideColumns(f), j)) == 1.0 &&
            forall k :: 0 <= k < |f.index| && f.values[k][j].Some? ==>
              DivideColumns(f).values[k][j].Some? && 0.0 <= DivideColumns(f).values[k][j].value <= 1.0
  {
    var f := MergedOf(labels, tableMap).value;
    CellAtMostSum(Column(f, j), p);
    ColumnsSumToOne(f, j);
    forall k | 0 <= k < |f.index| && f.values[k][j].Some?
      ensures DivideColumns(f).values[k][j].Some? && 0.0 <= DivideColumns(f).values[k][j].value <= 1.0
    {
      FractionBounds(f, k, j);
    }
  }
}
