/**
 * `fill_missing_vals`: with `ticker` as the index, every other column
 * (`latest_price` included) has its missing entries replaced by the mean of
 * its present entries; a column with no present entry has a missing mean and
 * stays as it is. No portfolio pipeline calls it.
 */
module Imputation {
  import opened Wrappers
  import opened Tables

  /** `col` with every missing entry replaced by `fill`. */
  function FillWith(col: seq<Value>, fill: Value): (r: seq<Value>)
    ensures |r| == |col|
  {
    seq(|col|, i requires 0 <= i < |col| => if col[i].Some? then col[i] else fill)
  }

  /** `x.fillna(x.mean())` on one column. */
  function FillColumn(col: seq<Value>): (r: seq<Value>)
    ensures |r| == |col|
  {
    FillWith(col, Mean(col))
  }

  /**
   * Present entries are kept, missing ones take the column mean; the result
   * has no gap unless the column had no present entry, in which case it is
   * the column unchanged.
   */
  lemma FillColumnEntries(col: seq<Value>)
    ensures forall i :: 0 <= i < |col| && col[i].Some? ==> FillColumn(col)[i] == col[i]
    ensures forall i :: 0 <= i < |col| && col[i].None? ==> FillColumn(col)[i] == Mean(col)
    ensures (exists i :: 0 <= i < |col| && col[i].Some?) ==> forall i :: 0 <= i < |col| ==> FillColumn(col)[i].Some?
    ensures (forall i :: 0 <= i < |col| ==> col[i].None?) ==> FillColumn(col) == col
  {
    PresentBound(col);
  }

  /** The number of missing entries. */
  function Missing(vs: seq<Value>): nat
    decreases |vs|
  {
    if |vs| == 0 then 0 else (if vs[0].None? then 1 else 0) + Missing(vs[1..])
  }

  lemma {:induction false} MissingCount(vs: seq<Value>)
    ensures Missing(vs) == |vs| - Present(vs)
    decreases |vs|
  {
    if |vs| > 0 {
      MissingCount(vs[1..]);
    }
  }

  lemma FillWithTail(col: seq<Value>, fill: Value)
    requires |col| > 0
    ensures FillWith(col, fill)[0] == (if col[0].Some? then col[0] else fill)
    ensures FillWith(col, fill)[1..] == FillWith(col[1..], fill)
  {
  }

  lemma {:induction false} FillWithPresent(col: seq<Value>, m: real)
    ensures Present(FillWith(col, Some(m))) == |col|
    decreases |col|
  {
    if |col| > 0 {
      FillWithTail(col, Some(m));
      FillWithPresent(col[1..], m);
    }
  }

  lemma {:induction false} FillWithTotal(col: seq<Value>, m: real)
    ensures Total(FillWith(col, Some(m))) == Total(col) + Missing(col) as real * m
    decreases |col|
  {
    if |col| > 0 {
      FillWithTail(col, Some(m));
      FillWithTotal(col[1..], m);
      if col[0].None? {
        AddOnce(Missing(col[1..]) as real, Missing(col) as real, m);
      }
    }
  }

  /** Filling with the mean does not move the mean. */
  lemma FillKeepsMean(col: seq<Value>)
    ensures Mean(FillColumn(col)) == Mean(col)
  {
    PresentBound(col);
    if Present(col) > 0 {
      var c, n := Present(col) as real, |col| as real;
      var m := Total(col) / c;
      FillWithPresent(col, m);
      FillWithTotal(col, m);
      MissingCount(col);
      MeanOfFilled(Total(col), c, n, Missing(col) as real, m, Total(FillColumn(col)));
    } else {
      FillColumnEntries(col);
    }
  }

  /** The arithmetic of `FillKeepsMean`: c values of mean m plus n - c copies of m have mean m. */
  lemma MeanOfFilled(t: real, c: real, n: real, k: real, m: real, filled: real)
    requires c > 0.0 && m == t / c && k == n - c && n >= c
    requires filled == t + k * m
    ensures filled / n == m
  {
    assert m * c == t;
    assert filled == m * n;
  }

  /** Filling a second time changes nothing. */
  lemma FillColumnIdempotent(col: seq<Value>)
    ensures FillColumn(FillColumn(col)) == FillColumn(col)
  {
    FillColumnEntries(col);
    FillColumnEntries(FillColumn(col));
  }

  /** A column with entries 10, missing, 30 has its gap filled with 20. */
  lemma FillColumnExample()
    ensures FillColumn([Some(10.0), None, Some(30.0)]) == [Some(10.0), Some(20.0), Some(30.0)]
  {
    var col := [Some(10.0), None, Some(30.0)];
    assert Present(col) == 2 && Total(col) == 40.0;
  }

  /** `fill_missing_vals` on a whole table. */
  function FillMissingVals(rows: seq<Record>): (r: seq<Record>)
    requires WellFormed(rows)
    ensures |r| == |rows| && HasWidth(r, Width(rows))
  {
    var prices := FillColumn(Prices(rows));
    var cols := seq(Width(rows), j requires 0 <= j < Width(rows) => FillColumn(Column(rows, j)));
    seq(|rows|, i requires 0 <= i < |rows| =>
      Record(rows[i].ticker, prices[i], seq(Width(rows), j requires 0 <= j < Width(rows) => cols[j][i])))
  }

  /**
   * The ticker column is unchanged and every other column, latest_price
   * included, is that column filled with its own mean.
   */
  lemma FillMissingValsColumns(rows: seq<Record>)
    requires WellFormed(rows)
    ensures var r := FillMissingVals(rows);
      && WellFormed(r) && Width(r) == Width(rows)
      && Tickers(r) == Tickers(rows)
      && Prices(r) == FillColumn(Prices(rows))
      && forall j :: 0 <= j < Width(rows) ==> Column(r, j) == FillColumn(Column(rows, j))
  {
    var r := FillMissingVals(rows);
    HasWidthWellFormed(r, Width(rows));
  }

  /** Filling a table a second time changes nothing. */
  lemma FillMissingValsIdempotent(rows: seq<Record>)
    requires WellFormed(rows)
    ensures WellFormed(FillMissingVals(rows))
    ensures FillMissingVals(FillMissingVals(rows)) == FillMissingVals(rows)
  {
    var r := FillMissingVals(rows);
    FillMissingValsColumns(rows);
    FillMissingValsColumns(r);
    FillColumnIdempotent(Prices(rows));
    var w := Width(rows);
    forall j | 0 <= j < w
      ensures Column(FillMissingVals(r), j) == Column(r, j)
    {
      FillColumnIdempotent(Column(rows, j));
    }
    var rr := FillMissingVals(r);
    forall i | 0 <= i < |r|
      ensures rr[i] == r[i]
    {
      assert rr[i].ticker == Tickers(rr)[i] == Tickers(r)[i] == r[i].ticker;
      assert rr[i].latestPrice == Prices(rr)[i] == Prices(r)[i] == r[i].latestPrice;
      forall j | 0 <= j < w
        ensures rr[i].metrics[j] == r[i].metrics[j]
      {
        assert rr[i].metrics[j] == Column(rr, j)[i] == Column(r, j)[i];
      }
    }
  }
}
