/**
 * The two scorers. Both set `ticker` and `latest_price` aside as the index,
 * replace every other column by its percentile rank (pandas `rank(pct=True)`:
 * average rank among the non-missing values, missing values kept, divided by
 * the number of non-missing values), append the row mean of the ranks as the
 * score, sort by the score (missing scores last) and keep the first
 * `stock_cutoff` rows.
 */
module Scoring {
  import opened Wrappers
  import opened Tables

  /** Present values strictly below `v`. */
  function CountBelow(col: seq<Value>, v: real): nat
    decreases |col|
  {
    if |col| == 0 then 0 else (if col[0].Some? && col[0].value < v then 1 else 0) + CountBelow(col[1..], v)
  }

  /** Present values equal to `v`. */
  function CountEqual(col: seq<Value>, v: real): nat
    decreases |col|
  {
    if |col| == 0 then 0 else (if col[0] == Some(v) then 1 else 0) + CountEqual(col[1..], v)
  }

  /** Present values strictly above `v`. */
  function CountAbove(col: seq<Value>, v: real): nat
    decreases |col|
  {
    if |col| == 0 then 0 else (if col[0].Some? && col[0].value > v then 1 else 0) + CountAbove(col[1..], v)
  }

  /**
   * The average rank of `v` divided by the number of present values: the
   * tied values occupy ranks below+1 .. below+equal, whose mean is
   * below + (equal + 1) / 2.
   */
  function PctRank(col: seq<Value>, v: real): real
    requires Present(col) > 0
  {
    (CountBelow(col, v) as real + (CountEqual(col, v) as real + 1.0) / 2.0) / Present(col) as real
  }

  /** `Series.rank(pct=True)`. */
  function RankColumn(col: seq<Value>): (ranks: seq<Value>)
    ensures |ranks| == |col|
  {
    seq(|col|, i requires 0 <= i < |col| =>
      if col[i].None? then None
      else
        PresentBound(col);
        Some(PctRank(col, col[i].value)))
  }

  lemma {:induction false} CountsPartition(col: seq<Value>, v: real)
    ensures CountBelow(col, v) + CountEqual(col, v) + CountAbove(col, v) == Present(col)
    decreases |col|
  {
    if |col| > 0 {
      CountsPartition(col[1..], v);
    }
  }

  lemma {:induction false} CountEqualHit(col: seq<Value>, i: nat)
    requires i < |col| && col[i].Some?
    ensures CountEqual(col, col[i].value) >= 1
    decreases |col|
  {
    if i > 0 {
      assert col[1..][i - 1] == col[i];
      CountEqualHit(col[1..], i - 1);
    }
  }

  /** Everything below or equal to `v` is below `w > v`. */
  lemma {:induction false} CountBelowGrows(col: seq<Value>, v: real, w: real)
    requires v < w
    ensures CountBelow(col, v) + CountEqual(col, v) <= CountBelow(col, w)
    decreases |col|
  {
    if |col| > 0 {
      CountBelowGrows(col[1..], v, w);
    }
  }

  /** Two entries at or above `v` make at least two. */
  lemma {:induction false} TwoAtOrAbove(col: seq<Value>, v: real, i: nat, j: nat)
    requires i < |col| && j < |col| && i != j
    requires col[i].Some? && col[i].value >= v && col[j].Some? && col[j].value >= v
    ensures CountEqual(col, v) + CountAbove(col, v) >= 2
    decreases |col|
  {
    if i > 0 && j > 0 {
      assert col[1..][i - 1] == col[i] && col[1..][j - 1] == col[j];
      TwoAtOrAbove(col[1..], v, i - 1, j - 1);
    } else {
      var k := if i == 0 then j else i;
      assert col[1..][k - 1] == col[k];
      AtOrAbove(col[1..], v, k - 1);
    }
  }

  lemma {:induction false} AtOrAbove(col: seq<Value>, v: real, i: nat)
    requires i < |col| && col[i].Some? && col[i].value >= v
    ensures CountEqual(col, v) + CountAbove(col, v) >= 1
    decreases |col|
  {
    if i > 0 {
      assert col[1..][i - 1] == col[i];
      AtOrAbove(col[1..], v, i - 1);
    }
  }

  /** When every other present entry is below `col[i]`, `col[i]` is alone at or above itself. */
  lemma {:induction false} OnlyAtOrAbove(col: seq<Value>, i: nat)
    requires i < |col| && col[i].Some?
    requires forall j :: 0 <= j < |col| && j != i && col[j].Some? ==> col[j].value < col[i].value
    ensures CountEqual(col, col[i].value) + CountAbove(col, col[i].value) == 1
    decreases |col|
  {
    var v := col[i].value;
    if i == 0 {
      NoneAtOrAbove(col[1..], v);
    } else {
      assert col[1..][i - 1] == col[i];
      assert forall j :: 0 <= j < |col[1..]| ==> col[1..][j] == col[j + 1];
      OnlyAtOrAbove(col[1..], i - 1);
    }
  }

  lemma {:induction false} NoneAtOrAbove(col: seq<Value>, v: real)
    requires forall j :: 0 <= j < |col| && col[j].Some? ==> col[j].value < v
    ensures CountEqual(col, v) + CountAbove(col, v) == 0
    decreases |col|
  {
    if |col| > 0 {
      assert forall j :: 0 <= j < |col[1..]| ==> col[1..][j] == col[j + 1];
      NoneAtOrAbove(col[1..], v);
    }
  }

  /** Every non-missing entry gets a rank in (0, 1]; missing entries stay missing. */
  lemma RankBounds(col: seq<Value>, i: nat)
    requires i < |col|
    ensures RankColumn(col)[i].Some? <==> col[i].Some?
    ensures RankColumn(col)[i].Some? ==> 0.0 < RankColumn(col)[i].value <= 1.0
  {
    if col[i].Some? {
      var v := col[i].value;
      PresentBound(col);
      CountsPartition(col, v);
      CountEqualHit(col, i);
      var l, e, c := CountBelow(col, v) as real, CountEqual(col, v) as real, Present(col) as real;
      assert 0.0 < l + (e + 1.0) / 2.0 <= c;
      QuotientBetween(l + (e + 1.0) / 2.0, c, 0.0, 1.0);
      assert RankColumn(col)[i].value == (l + (e + 1.0) / 2.0) / c;
      assert RankColumn(col)[i].value > 0.0;
    }
  }

  /** Ranks order present entries exactly as their values: larger value, larger rank; equal values, equal ranks. */
  lemma RankOrder(col: seq<Value>, i: nat, j: nat)
    requires i < |col| && j < |col| && col[i].Some? && col[j].Some?
    ensures RankColumn(col)[i].Some? && RankColumn(col)[j].Some?
    ensures col[i].value < col[j].value <==> RankColumn(col)[i].value < RankColumn(col)[j].value
    ensures col[i].value == col[j].value ==> RankColumn(col)[i] == RankColumn(col)[j]
  {
    var v, w := col[i].value, col[j].value;
    if v < w {
      RankStrictlyMonotone(col, i, j);
    } else if w < v {
      RankStrictlyMonotone(col, j, i);
    }
  }

  lemma RankAt(col: seq<Value>, i: nat)
    requires i < |col| && col[i].Some?
    ensures Present(col) > 0
    ensures RankColumn(col)[i] == Some(PctRank(col, col[i].value))
  {
    PresentBound(col);
  }

  lemma RankStrictlyMonotone(col: seq<Value>, i: nat, j: nat)
    requires i < |col| && j < |col| && col[i].Some? && col[j].Some? && col[i].value < col[j].value
    ensures RankColumn(col)[i].Some? && RankColumn(col)[j].Some?
    ensures RankColumn(col)[i].value < RankColumn(col)[j].value
  {
    var v, w := col[i].value, col[j].value;
    RankAt(col, i);
    RankAt(col, j);
    CountEqualHit(col, i);
    CountBelowGrows(col, v, w);
    var a := CountBelow(col, v) as real + (CountEqual(col, v) as real + 1.0) / 2.0;
    var b := CountBelow(col, w) as real + (CountEqual(col, w) as real + 1.0) / 2.0;
    QuotientMonotone(a, b, Present(col) as real);
  }

  /** An entry gets rank 1 exactly when every other present entry is strictly smaller (a tied maximum gets less). */
  lemma RankOne(col: seq<Value>, i: nat)
    requires i < |col| && col[i].Some?
    ensures RankColumn(col)[i].Some?
    ensures RankColumn(col)[i].value == 1.0 <==>
      forall j :: 0 <= j < |col| && j != i && col[j].Some? ==> col[j].value < col[i].value
  {
    var v := col[i].value;
    RankAt(col, i);
    var a := CountBelow(col, v) as real + (CountEqual(col, v) as real + 1.0) / 2.0;
    RankNumeratorFull(col, i);
    UnitQuotient(a, Present(col) as real);
  }

  /** The numerator of an entry's rank reaches the present count exactly when the entry is the unique maximum. */
  lemma RankNumeratorFull(col: seq<Value>, i: nat)
    requires i < |col| && col[i].Some?
    ensures var v := col[i].value;
      CountBelow(col, v) as real + (CountEqual(col, v) as real + 1.0) / 2.0 == Present(col) as real <==>
      forall j :: 0 <= j < |col| && j != i && col[j].Some? ==> col[j].value < v
  {
    var v := col[i].value;
    CountsPartition(col, v);
    CountEqualHit(col, i);
    if forall j :: 0 <= j < |col| && j != i && col[j].Some? ==> col[j].value < v {
      OnlyAtOrAbove(col, i);
    } else {
      var j :| 0 <= j < |col| && j != i && col[j].Some? && col[j].value >= v;
      TwoAtOrAbove(col, v, i, j);
    }
  }

  lemma UnitQuotient(a: real, c: real)
    requires c > 0.0
    ensures a / c == 1.0 <==> a == c
  {
    var q := a / c;
    assert q * c == a;
    if q == 1.0 {
      assert a == c;
    }
  }

  /** Row `i`'s percentile ranks, one per metric column. */
  function RankedRow(rows: seq<Record>, i: nat): (ranks: seq<Value>)
    requires WellFormed(rows) && i < |rows|
    ensures |ranks| == Width(rows)
  {
    seq(Width(rows), j requires 0 <= j < Width(rows) => RankColumn(Column(rows, j))[i])
  }

  /** `rank(pct=True)` on the metric columns, then the row mean of the ranks appended as the score. */
  function Scored(rows: seq<Record>): (r: seq<Record>)
    requires WellFormed(rows)
    ensures |r| == |rows|
  {
    seq(|rows|, i requires 0 <= i < |rows| =>
      var ranks := RankedRow(rows, i);
      Record(rows[i].ticker, rows[i].latestPrice, ranks + [Mean(ranks)]))
  }

  /** The score column, the last one. */
  function ScoreOf(row: Record): Value {
    if |row.metrics| == 0 then None else row.metrics[|row.metrics| - 1]
  }

  /**
   * Each scored row keeps its ticker and latest price; each metric column
   * holds the percentile rank of the row's value in that column (missing stays
   * missing, present lies in (0, 1]); the score is the mean of the row's
   * present ranks, lies in (0, 1], and is missing only when every metric is.
   */
  lemma ScoredRow(rows: seq<Record>, i: nat)
    requires WellFormed(rows) && i < |rows|
    ensures var out, w := Scored(rows)[i], Width(rows);
      && out.ticker == rows[i].ticker && out.latestPrice == rows[i].latestPrice
      && |out.metrics| == w + 1
      && (forall j :: 0 <= j < w ==> out.metrics[j] == RankColumn(Column(rows, j))[i])
      && (forall j :: 0 <= j < w ==> (out.metrics[j].Some? <==> rows[i].metrics[j].Some?))
      && (forall j :: 0 <= j < w && out.metrics[j].Some? ==> 0.0 < out.metrics[j].value <= 1.0)
      && ScoreOf(out) == Mean(out.metrics[..w])
      && (ScoreOf(out).Some? <==> exists j :: 0 <= j < w && rows[i].metrics[j].Some?)
      && (ScoreOf(out).Some? ==> 0.0 < ScoreOf(out).value <= 1.0)
  {
    var w := Width(rows);
    var ranks := RankedRow(rows, i);
    var out := Scored(rows)[i];
    assert out.metrics[..w] == ranks;
    forall j | 0 <= j < w
      ensures (ranks[j].Some? <==> rows[i].metrics[j].Some?)
      ensures ranks[j].Some? ==> 0.0 < ranks[j].value <= 1.0
    {
      RankBounds(Column(rows, j), i);
    }
    MeanBounds(ranks, 0.0, 1.0);
    MeanPositive(ranks);
  }

  /**
   * Of two rows with the same missing entries, the one that is nowhere below
   * the other and strictly above it in some column gets the strictly larger score.
   */
  lemma HigherMetricsHigherScore(rows: seq<Record>, a: nat, b: nat, j: nat)
    requires WellFormed(rows) && a < |rows| && b < |rows| && j < Width(rows)
    requires forall k :: 0 <= k < Width(rows) ==> (rows[a].metrics[k].Some? <==> rows[b].metrics[k].Some?)
    requires forall k :: 0 <= k < Width(rows) && rows[a].metrics[k].Some? ==>
      rows[b].metrics[k].value <= rows[a].metrics[k].value
    requires rows[a].metrics[j].Some? && rows[b].metrics[j].value < rows[a].metrics[j].value
    ensures ScoreOf(Scored(rows)[a]).Some? && ScoreOf(Scored(rows)[b]).Some?
    ensures ScoreOf(Scored(rows)[b]).value < ScoreOf(Scored(rows)[a]).value
  {
    var w := Width(rows);
    var ra, rb := RankedRow(rows, a), RankedRow(rows, b);
    forall k | 0 <= k < w
      ensures (ra[k].Some? <==> rb[k].Some?)
      ensures ra[k].Some? ==> rb[k].value <= ra[k].value
      ensures k == j ==> rb[k].value < ra[k].value
    {
      var col := Column(rows, k);
      RankBounds(col, a);
      RankBounds(col, b);
      if col[a].Some? {
        RankOrder(col, a, b);
        RankOrder(col, b, a);
      }
    }
    MeanStrictlyMonotone(ra, rb, j);
    assert Scored(rows)[a].metrics == ra + [Mean(ra)];
    assert Scored(rows)[b].metrics == rb + [Mean(rb)];
  }

  /** Score `a` may come before score `b`: missing scores go last, the others by value. */
  predicate Precedes(a: Value, b: Value, descending: bool) {
    b.None? || (a.Some? && (if descending then a.value >= b.value else a.value <= b.value))
  }

  /** The rows are in score order. */
  predicate SortedBy(rows: seq<Record>, descending: bool) {
    forall i, j :: 0 <= i < j < |rows| ==> Precedes(ScoreOf(rows[i]), ScoreOf(rows[j]), descending)
  }

  /** Places `x` into rows already in score order. */
  function Insert(x: Record, sorted: seq<Record>, descending: bool): (r: seq<Record>)
    requires SortedBy(sorted, descending)
    ensures multiset(r) == multiset(sorted) + multiset{x}
    ensures SortedBy(r, descending)
    decreases |sorted|
  {
    if |sorted| == 0 then [x]
    else if Precedes(ScoreOf(x), ScoreOf(sorted[0]), descending) then
      HeadPrecedesAll(x, sorted, descending);
      ConsSorted(x, sorted, descending);
      [x] + sorted
    else
      var rest := Insert(x, sorted[1..], descending);
      assert sorted == [sorted[0]] + sorted[1..];
      FirstPrecedesInserted(x, sorted, rest, descending);
      ConsSorted(sorted[0], rest, descending);
      [sorted[0]] + rest
  }

  /** A row preceding the first of rows in score order precedes all of them. */
  lemma HeadPrecedesAll(x: Record, sorted: seq<Record>, descending: bool)
    requires SortedBy(sorted, descending) && |sorted| > 0
    requires Precedes(ScoreOf(x), ScoreOf(sorted[0]), descending)
    ensures forall k :: 0 <= k < |sorted| ==> Precedes(ScoreOf(x), ScoreOf(sorted[k]), descending)
  {
  }

  /** The first of rows in score order precedes everything `x` is inserted among after it. */
  lemma FirstPrecedesInserted(x: Record, sorted: seq<Record>, rest: seq<Record>, descending: bool)
    requires SortedBy(sorted, descending) && |sorted| > 0
    requires !Precedes(ScoreOf(x), ScoreOf(sorted[0]), descending)
    requires multiset(rest) == multiset(sorted[1..]) + multiset{x}
    ensures forall k :: 0 <= k < |rest| ==> Precedes(ScoreOf(sorted[0]), ScoreOf(rest[k]), descending)
  {
    forall k | 0 <= k < |rest|
      ensures Precedes(ScoreOf(sorted[0]), ScoreOf(rest[k]), descending)
    {
      assert rest[k] in multiset(rest);
      if rest[k] != x {
        assert rest[k] in multiset(sorted[1..]);
        var l :| 0 <= l < |sorted[1..]| && sorted[1..][l] == rest[k];
        assert sorted[l + 1] == rest[k];
      }
    }
  }

  /** A row preceding every row of a sorted sequence may be put in front of it. */
  lemma ConsSorted(h: Record, rows: seq<Record>, descending: bool)
    requires SortedBy(rows, descending)
    requires forall k :: 0 <= k < |rows| ==> Precedes(ScoreOf(h), ScoreOf(rows[k]), descending)
    ensures SortedBy([h] + rows, descending)
  {
    var r := [h] + rows;
    forall i, j | 0 <= i < j < |r|
      ensures Precedes(ScoreOf(r[i]), ScoreOf(r[j]), descending)
    {
      assert r[j] == rows[j - 1];
      if i > 0 {
        assert r[i] == rows[i - 1];
      }
    }
  }

  /** `sort_values` on the score column; the order of equal scores is left to the sort. */
  function SortByScore(rows: seq<Record>, descending: bool): (r: seq<Record>)
    ensures multiset(r) == multiset(rows)
    ensures SortedBy(r, descending)
    decreases |rows|
  {
    if |rows| == 0 then []
    else
      assert rows == [rows[0]] + rows[1..];
      Insert(rows[0], SortByScore(rows[1..], descending), descending)
  }

  /** `DataFrame.head(n)`: the first n rows, or all but the last -n rows when n is negative. */
  function Head(rows: seq<Record>, n: int): (r: seq<Record>)
    ensures |r| <= |rows| && r == rows[..|r|]
    ensures n >= 0 ==> |r| == Min(n, |rows|)
    ensures n < 0 ==> |r| == if |rows| + n < 0 then 0 else |rows| + n
  {
    if n >= 0 then rows[..Min(n, |rows|)]
    else if |rows| + n < 0 then []
    else rows[..|rows| + n]
  }

  function Min(a: int, b: int): int {
    if a <= b then a else b
  }

  /**
   * Score, sort and truncate. The result is in score order, is drawn from the
   * scored rows, has min(cutoff, n) rows, and no row left out scores better
   * than a row kept.
   */
  function Shortlist(rows: seq<Record>, cutoff: int, descending: bool): (r: seq<Record>)
    requires WellFormed(rows)
    ensures cutoff >= 0 ==> |r| == Min(cutoff, |rows|)
    ensures SortedBy(r, descending)
    ensures multiset(r) <= multiset(Scored(rows))
    ensures forall x, y :: x in multiset(r) && y in multiset(Scored(rows)) - multiset(r) ==>
      Precedes(ScoreOf(x), ScoreOf(y), descending)
  {
    var sorted := SortByScore(Scored(rows), descending);
    var r := Head(sorted, cutoff);
    PrefixIsTop(sorted, |r|, descending);
    r
  }

  /** A prefix of rows in score order holds rows no later row scores better than. */
  lemma PrefixIsTop(sorted: seq<Record>, m: nat, descending: bool)
    requires SortedBy(sorted, descending) && m <= |sorted|
    ensures SortedBy(sorted[..m], descending)
    ensures multiset(sorted[..m]) <= multiset(sorted)
    ensures forall x, y :: x in multiset(sorted[..m]) && y in multiset(sorted) - multiset(sorted[..m]) ==>
      Precedes(ScoreOf(x), ScoreOf(y), descending)
  {
    var r := sorted[..m];
    assert sorted == r + sorted[m..];
    assert multiset(sorted) == multiset(r) + multiset(sorted[m..]);
    forall x, y | x in multiset(r) && y in multiset(sorted) - multiset(r)
      ensures Precedes(ScoreOf(x), ScoreOf(y), descending)
    {
      var i :| 0 <= i < m && r[i] == x;
      assert y in multiset(sorted[m..]);
      var k :| 0 <= k < |sorted[m..]| && sorted[m..][k] == y;
      assert sorted[i] == x && sorted[m + k] == y;
    }
  }

  /**
   * `generate_high_quality_momentum_score`: the shortlist in non-increasing
   * `hqm_score` order, rows with a missing score last.
   */
  function HqmScore(rows: seq<Record>, cutoff: int): (r: seq<Record>)
    requires WellFormed(rows)
    ensures forall i, j :: 0 <= i < j < |r| && ScoreOf(r[j]).Some? ==>
      ScoreOf(r[i]).Some? && ScoreOf(r[i]).value >= ScoreOf(r[j]).value
  {
    Shortlist(rows, cutoff, true)
  }

  /**
   * `generate_robust_value_score`: the shortlist in non-decreasing `rv_score`
   * order, rows with a missing score last.
   */
  function RvScore(rows: seq<Record>, cutoff: int): (r: seq<Record>)
    requires WellFormed(rows)
    ensures forall i, j :: 0 <= i < j < |r| && ScoreOf(r[j]).Some? ==>
      ScoreOf(r[i]).Some? && ScoreOf(r[i]).value <= ScoreOf(r[j]).value
  {
    Shortlist(rows, cutoff, false)
  }
}
