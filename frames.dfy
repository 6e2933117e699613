/** The pandas operations the table assets use, on a frame of real cells: row labels,
    column labels and the cells row by row, with `None` standing for NaN. Areas are exact
    reals. Labels are looked up by their first occurrence, as `.loc` does on a frame
    whose labels do not repeat. */
module Frames {
  import opened Wrappers
  import opened Sorting

  datatype Frame<R, C> = Frame(index: seq<R>, columns: seq<C>, values: seq<seq<Option<real>>>)

  /** One row of cells per row label, one cell per column label. */
  predicate Shaped<R, C>(f: Frame<R, C>)
  {
    |f.values| == |f.index| && forall i :: 0 <= i < |f.values| ==> |f.values[i]| == |f.columns|
  }

  predicate NoDuplicates<T(==)>(s: seq<T>)
  {
    forall p, q :: 0 <= p < q < |s| ==> s[p] != s[q]
  }

  /** The position of the first occurrence of `x`. */
  function IndexOf<T(==)>(s: seq<T>, x: T): (k: nat)
    requires x in s
    ensures k < |s| && s[k] == x
    ensures forall p :: 0 <= p < k ==> s[p] != x
  {
    if s[0] == x then 0
    else
      var k := IndexOf(s[1..], x);
      assert forall p :: 1 <= p < k + 1 ==> s[p] == s[1..][p - 1];
      1 + k
  }

  lemma IndexOfAppend<T>(s: seq<T>, x: T, y: T)
    requires y in s
    ensures y in s + [x] && IndexOf(s + [x], y) == IndexOf(s, y)
  {
    var k := IndexOf(s, y);
    var k' := IndexOf(s + [x], y);
    assert (s + [x])[k] == y;
    assert k' <= k;
    assert s[k'] == (s + [x])[k'];
  }

  lemma IndexOfUnique<T>(s: seq<T>, k: nat)
    requires NoDuplicates(s) && k < |s|
    ensures IndexOf(s, s[k]) == k
  {
  }

  /** `df.loc[r, c]`. */
  function At<R(==), C(==)>(f: Frame<R, C>, r: R, c: C): Option<real>
    requires Shaped(f) && r in f.index && c in f.columns
  {
    f.values[IndexOf(f.index, r)][IndexOf(f.columns, c)]
  }

  // ---- pivot_table ----

  /** One row of the long table that is pivoted. */
  datatype Record<R, C> = Record(row: R, col: C, value: real)

  function Sum(xs: seq<real>): real
  {
    if |xs| == 0 then 0.0 else Sum(xs[..|xs| - 1]) + xs[|xs| - 1]
  }

  /** The values of the records at (r, c), in record order. */
  function Matches<R(==), C(==)>(records: seq<Record<R, C>>, r: R, c: C): (xs: seq<real>)
    ensures |xs| == 0 <==> forall k :: 0 <= k < |records| ==> !(records[k].row == r && records[k].col == c)
  {
    if |records| == 0 then []
    else
      var prev := Matches(records[..|records| - 1], r, c);
      assert forall k :: 0 <= k < |records| - 1 ==> records[..|records| - 1][k] == records[k];
      var last := records[|records| - 1];
      if last.row == r && last.col == c then prev + [last.value] else prev
  }

  /** The default aggregation of `pivot_table`: the mean, NaN for no value. */
  function Mean(xs: seq<real>): (r: Option<real>)
    ensures r.None? <==> |xs| == 0
  {
    if |xs| == 0 then None else Some(Sum(xs) / |xs| as real)
  }

  /** `pivot_table` onto the given row and column labels. */
  function Pivot<R(==), C(==)>(records: seq<Record<R, C>>, index: seq<R>, columns: seq<C>): (f: Frame<R, C>)
    ensures Shaped(f) && f.index == index && f.columns == columns
  {
    Frame(index, columns,
          seq(|index|, i requires 0 <= i < |index| =>
            seq(|columns|, j requires 0 <= j < |columns| => Mean(Matches(records, index[i], columns[j])))))
  }

  lemma PivotAt<R, C>(records: seq<Record<R, C>>, index: seq<R>, columns: seq<C>, r: R, c: C)
    requires r in index && c in columns
    ensures At(Pivot(records, index, columns), r, c) == Mean(Matches(records, r, c))
  {
  }

  /** When exactly one record sits at (r, c), the mean is its value. */
  lemma {:induction false} MatchesSingle<R, C>(records: seq<Record<R, C>>, k: nat, r: R, c: C)
    requires k < |records| && records[k].row == r && records[k].col == c
    requires forall q :: 0 <= q < |records| && q != k ==> !(records[q].row == r && records[q].col == c)
    ensures Matches(records, r, c) == [records[k].value]
    ensures Mean(Matches(records, r, c)) == Some(records[k].value)
  {
    var n := |records| - 1;
    var front := records[..n];
    assert forall q :: 0 <= q < n ==> front[q] == records[q];
    if k < n {
      MatchesSingle(front, k, r, c);
    } else {
      assert Matches(front, r, c) == [];
    }
    MeanSingle(records[k].value);
  }

  lemma MeanSingle(v: real)
    ensures Mean([v]) == Some(v)
  {
    assert [v][..0] == [];
    assert Sum([v]) == v;
    assert |[v]| as real == 1.0;
  }

  function RowLabels<R, C>(records: seq<Record<R, C>>): (s: seq<R>)
    ensures |s| == |records| && forall k :: 0 <= k < |records| ==> s[k] == records[k].row
  {
    seq(|records|, k requires 0 <= k < |records| => records[k].row)
  }

  function ColLabels<R, C>(records: seq<Record<R, C>>): (s: seq<C>)
    ensures |s| == |records| && forall k :: 0 <= k < |records| ==> s[k] == records[k].col
  {
    seq(|records|, k requires 0 <= k < |records| => records[k].col)
  }

  /** `pivot_table(index=..., columns=..., values=...)` on string row and column keys: the
      distinct keys, sorted. */
  function PivotLabels(records: seq<Record<string, string>>): (f: Frame<string, string>)
    ensures Shaped(f)
    ensures StrictlySorted(f.index) && Elements(f.index) == Elements(RowLabels(records))
    ensures StrictlySorted(f.columns) && Elements(f.columns) == Elements(ColLabels(records))
  {
    Pivot(records, SortedSet(RowLabels(records)), SortedSet(ColLabels(records)))
  }

  /** The string pivot's row (column) labels are exactly the records' row (column) labels. */
  lemma PivotLabelsMembers(records: seq<Record<string, string>>)
    ensures forall x :: x in PivotLabels(records).index <==> x in RowLabels(records)
    ensures forall x :: x in PivotLabels(records).columns <==> x in ColLabels(records)
  {
    var f := PivotLabels(records);
    forall x ensures x in f.index <==> x in RowLabels(records) {
      assert x in f.index <==> x in Elements(f.index);
      assert x in RowLabels(records) <==> x in Elements(RowLabels(records));
    }
    forall x ensures x in f.columns <==> x in ColLabels(records) {
      assert x in f.columns <==> x in Elements(f.columns);
      assert x in ColLabels(records) <==> x in Elements(ColLabels(records));
    }
  }

  /** A record's labels are labels of the string pivot, and its cell there is the mean of
      the records at those labels. */
  lemma PivotLabelsAt(records: seq<Record<string, string>>, r: string, c: string)
    requires r in RowLabels(records) && c in ColLabels(records)
    ensures r in PivotLabels(records).index && c in PivotLabels(records).columns
    ensures At(PivotLabels(records), r, c) == Mean(Matches(records, r, c))
  {
    assert r in Elements(RowLabels(records)) && c in Elements(ColLabels(records));
    var f := PivotLabels(records);
    assert r in Elements(f.index) && c in Elements(f.columns);
    PivotAt(records, f.index, f.columns, r, c);
  }

  /** The same with integer columns (year offsets). */
  function PivotYears(records: seq<Record<string, int>>): (f: Frame<string, int>)
    ensures Shaped(f)
    ensures StrictlySorted(f.index) && Elements(f.index) == Elements(RowLabels(records))
    ensures IntsStrictlySorted(f.columns) && forall y :: y in f.columns <==> y in ColLabels(records)
  {
    Pivot(records, SortedSet(RowLabels(records)), SortedIntSet(ColLabels(records)))
  }

  // ---- cell-wise operations ----

  /** `fillna(v)`. */
  function FillNa<R, C>(f: Frame<R, C>, v: real): (g: Frame<R, C>)
    requires Shaped(f)
    ensures Shaped(g) && g.index == f.index && g.columns == f.columns
    ensures forall i, j :: 0 <= i < |f.index| && 0 <= j < |f.columns| ==>
              g.values[i][j] == Some(if f.values[i][j].Some? then f.values[i][j].value else v)
  {
    Frame(f.index, f.columns,
          seq(|f.values|, i requires 0 <= i < |f.values| =>
            seq(|f.values[i]|, j requires 0 <= j < |f.values[i]| =>
              Some(if f.values[i][j].Some? then f.values[i][j].value else v))))
  }

  lemma FillNaAt<R, C>(f: Frame<R, C>, v: real, r: R, c: C)
    requires Shaped(f) && r in f.index && c in f.columns
    ensures At(FillNa(f, v), r, c) == Some(if At(f, r, c).Some? then At(f, r, c).value else v)
  {
  }

  /** `divide(d)` by a non-zero scalar. */
  function Divide<R, C>(f: Frame<R, C>, d: real): (g: Frame<R, C>)
    requires Shaped(f) && d != 0.0
    ensures Shaped(g) && g.index == f.index && g.columns == f.columns
    ensures forall i, j :: 0 <= i < |f.index| && 0 <= j < |f.columns| ==>
              g.values[i][j] == if f.values[i][j].Some? then Some(f.values[i][j].value / d) else None
  {
    Frame(f.index, f.columns,
          seq(|f.values|, i requires 0 <= i < |f.values| =>
            seq(|f.values[i]|, j requires 0 <= j < |f.values[i]| =>
              if f.values[i][j].Some? then Some(f.values[i][j].value / d) else None)))
  }

  /** `sum()` of a column: NaN cells are skipped, an empty or all-NaN column sums to 0. */
  function SumSkipNa(xs: seq<Option<real>>): real
  {
    if |xs| == 0 then 0.0
    else SumSkipNa(xs[..|xs| - 1]) + (if xs[|xs| - 1].Some? then xs[|xs| - 1].value else 0.0)
  }

  function Column<R, C>(f: Frame<R, C>, j: nat): (col: seq<Option<real>>)
    requires Shaped(f) && j < |f.columns|
    ensures |col| == |f.index| && forall i :: 0 <= i < |f.index| ==> col[i] == f.values[i][j]
  {
    seq(|f.values|, i requires 0 <= i < |f.values| => f.values[i][j])
  }

  /** A cell divided by its column's sum; a zero sum gives NaN. pandas gives NaN there only
      for a zero cell and ±inf otherwise; on non-negative areas the two agree (`ZeroSumColumn`). */
  function DivCell(x: Option<real>, s: real): Option<real>
  {
    if x.Some? && s != 0.0 then Some(x.value / s) else None
  }

  /** `df.div(df.sum(axis=0), axis=1)`: every cell divided by its column's sum. */
  function DivideColumns<R, C>(f: Frame<R, C>): (g: Frame<R, C>)
    requires Shaped(f)
    ensures Shaped(g) && g.index == f.index && g.columns == f.columns
    ensures forall i, j :: 0 <= i < |f.index| && 0 <= j < |f.columns| ==>
              g.values[i][j] == DivCell(f.values[i][j], SumSkipNa(Column(f, j)))
  {
    Frame(f.index, f.columns,
          seq(|f.values|, i requires 0 <= i < |f.values| =>
            seq(|f.columns|, j requires 0 <= j < |f.columns| => DivCell(f.values[i][j], SumSkipNa(Column(f, j))))))
  }

  lemma {:induction false} SumSkipNaDivided(xs: seq<Option<real>>, ys: seq<Option<real>>, s: real)
    requires s != 0.0 && |ys| == |xs|
    requires forall i :: 0 <= i < |xs| ==> ys[i] == DivCell(xs[i], s)
    ensures SumSkipNa(ys) == SumSkipNa(xs) / s
  {
    if |xs| > 0 {
      var n := |xs| - 1;
      SumSkipNaDivided(xs[..n], ys[..n], s);
      assert SumSkipNa(xs) == SumSkipNa(xs[..n]) + (if xs[n].Some? then xs[n].value else 0.0);
      assert SumSkipNa(ys) == SumSkipNa(ys[..n]) + (if ys[n].Some? then ys[n].value else 0.0);
    }
  }

  /** After the column division, every column whose sum was not zero sums to 1. */
  lemma ColumnsSumToOne<R, C>(f: Frame<R, C>, j: nat)
    requires Shaped(f) && j < |f.columns|
    requires SumSkipNa(Column(f, j)) != 0.0
    ensures SumSkipNa(Column(DivideColumns(f), j)) == 1.0
  {
    var s := SumSkipNa(Column(f, j));
    SumSkipNaDivided(Column(f, j), Column(DivideColumns(f), j), s);
    assert s / s == 1.0;
  }

  /** A column of non-negative areas that sums to zero holds only zeros and NaN, so every
      cell of it is 0/0, which is NaN: the model's reading of a zero sum is exact there. */
  lemma {:induction false} ZeroSumColumn(xs: seq<Option<real>>)
    requires forall i :: 0 <= i < |xs| && xs[i].Some? ==> xs[i].value >= 0.0
    requires SumSkipNa(xs) == 0.0
    ensures forall i :: 0 <= i < |xs| && xs[i].Some? ==> xs[i].value == 0.0
  {
    if |xs| > 0 {
      var n := |xs| - 1;
      SumNonNegative(xs[..n]);
      ZeroSumColumn(xs[..n]);
      assert forall i :: 0 <= i < n ==> xs[..n][i] == xs[i];
    }
  }

  lemma {:induction false} SumNonNegative(xs: seq<Option<real>>)
    requires forall i :: 0 <= i < |xs| && xs[i].Some? ==> xs[i].value >= 0.0
    ensures SumSkipNa(xs) >= 0.0
  {
    if |xs| > 0 {
      SumNonNegative(xs[..|xs| - 1]);
    }
  }

  /** In a column of non-negative areas, every cell is at most the column's sum. */
  lemma {:induction false} CellAtMostSum(xs: seq<Option<real>>, i: nat)
    requires i < |xs| && xs[i].Some?
    requires forall k :: 0 <= k < |xs| && xs[k].Some? ==> xs[k].value >= 0.0
    ensures xs[i].value <= SumSkipNa(xs)
  {
    var n := |xs| - 1;
    var front := xs[..n];
    assert forall k :: 0 <= k < n ==> front[k] == xs[k];
    SumNonNegative(front);
    if i < n {
      CellAtMostSum(front, i);
    }
  }

  /** Dividing a column of non-negative areas by its non-zero sum gives fractions in [0, 1]. */
  lemma FractionBounds<R, C>(f: Frame<R, C>, i: nat, j: nat)
    requires Shaped(f) && i < |f.index| && j < |f.columns| && f.values[i][j].Some?
    requires forall k :: 0 <= k < |f.index| && f.values[k][j].Some? ==> f.values[k][j].value >= 0.0
    requires SumSkipNa(Column(f, j)) != 0.0
    ensures DivideColumns(f).values[i][j].Some?
    ensures 0.0 <= DivideColumns(f).values[i][j].value <= 1.0
  {
    var col := Column(f, j);
    CellAtMostSum(col, i);
    var x := col[i].value;
    var s := SumSkipNa(col);
    assert DivideColumns(f).values[i][j] == DivCell(col[i], s);
    RatioBounds(x, s);
  }

  lemma RatioBounds(x: real, s: real)
    requires 0.0 <= x <= s && s > 0.0
    ensures 0.0 <= x / s <= 1.0
  {
    var q := x / s;
    assert q * s == x;
  }

  // ---- adding zero rows and columns ----

  /** `df.loc[r] = 0` for a new row label `r`: a row of zeros at the end. */
  function AddZeroRow<R, C>(f: Frame<R, C>, r: R): (g: Frame<R, C>)
    requires Shaped(f)
    ensures Shaped(g) && g.index == f.index + [r] && g.columns == f.columns
  {
    Frame(f.index + [r], f.columns, f.values + [seq(|f.columns|, _ => Some(0.0))])
  }

  /** `df[c] = 0` for a new column label `c`: a column of zeros at the end. */
  function AddZeroColumn<R, C>(f: Frame<R, C>, c: C): (g: Frame<R, C>)
    requires Shaped(f)
    ensures Shaped(g) && g.index == f.index && g.columns == f.columns + [c]
  {
    Frame(f.index, f.columns + [c], seq(|f.values|, i requires 0 <= i < |f.values| => f.values[i] + [Some(0.0)]))
  }

  lemma AddZeroRowAt<R, C>(f: Frame<R, C>, r: R, x: R, c: C)
    requires Shaped(f) && x in f.index + [r] && c in f.columns
    ensures At(AddZeroRow(f, r), x, c) == if x in f.index then At(f, x, c) else Some(0.0)
  {
    if x in f.index {
      IndexOfAppend(f.index, r, x);
    } else {
      assert IndexOf(f.index + [r], x) == |f.index|;
    }
  }

  lemma AddZeroColumnAt<R, C>(f: Frame<R, C>, c: C, r: R, x: C)
    requires Shaped(f) && r in f.index && x in f.columns + [c]
    ensures At(AddZeroColumn(f, c), r, x) == if x in f.columns then At(f, r, x) else Some(0.0)
  {
    if x in f.columns {
      IndexOfAppend(f.columns, c, x);
    } else {
      assert IndexOf(f.columns + [c], x) == |f.columns|;
    }
  }

  // ---- sorting the labels ----

  /** The frame with its rows taken in the order of `index`. */
  function ReindexRows<R(==), C>(f: Frame<R, C>, index: seq<R>): (g: Frame<R, C>)
    requires Shaped(f) && forall k :: 0 <= k < |index| ==> index[k] in f.index
    ensures Shaped(g) && g.index == index && g.columns == f.columns
  {
    Frame(index, f.columns, seq(|index|, k requires 0 <= k < |index| => f.values[IndexOf(f.index, index[k])]))
  }

  /** The frame with its columns taken in the order of `columns`. */
  function ReindexColumns<R, C(==)>(f: Frame<R, C>, columns: seq<C>): (g: Frame<R, C>)
    requires Shaped(f) && forall k :: 0 <= k < |columns| ==> columns[k] in f.columns
    ensures Shaped(g) && g.index == f.index && g.columns == columns
  {
    Frame(f.index, columns,
          seq(|f.values|, i requires 0 <= i < |f.values| =>
            seq(|columns|, k requires 0 <= k < |columns| => f.values[i][IndexOf(f.columns, columns[k])])))
  }

  /** `df.sort_index()` and then `df[sorted(df.columns)]`, on a frame whose labels do not
      repeat. */
  function SortLabels(f: Frame<string, string>): (g: Frame<string, string>)
    requires Shaped(f)
    ensures Shaped(g)
    ensures StrictlySorted(g.index) && Elements(g.index) == Elements(f.index)
    ensures StrictlySorted(g.columns) && Elements(g.columns) == Elements(f.columns)
  {
    var rows := SortedSet(f.index);
    assert forall k :: 0 <= k < |rows| ==> rows[k] in Elements(rows);
    var g := ReindexRows(f, rows);
    var cols := SortedSet(g.columns);
    assert forall k :: 0 <= k < |cols| ==> cols[k] in Elements(cols);
    ReindexColumns(g, cols)
  }

  /** Sorting moves cells but does not change any: every cell keeps its labels. */
  lemma SortLabelsAt(f: Frame<string, string>, r: string, c: string)
    requires Shaped(f) && r in f.index && c in f.columns
    ensures r in SortLabels(f).index && c in SortLabels(f).columns
    ensures At(SortLabels(f), r, c) == At(f, r, c)
  {
    var rows := SortedSet(f.index);
    assert r in Elements(f.index);
    assert forall k :: 0 <= k < |rows| ==> rows[k] in Elements(rows);
    var g := ReindexRows(f, rows);
    var cols := SortedSet(g.columns);
    assert c in Elements(g.columns);
    assert forall k :: 0 <= k < |cols| ==> cols[k] in Elements(cols);
    var h := ReindexColumns(g, cols);
    assert r in Elements(rows) && c in Elements(cols);
    assert At(g, r, c) == At(f, r, c);
  }
}
