/**
 * The tabular data the pipeline passes between its stages: one record per
 * ticker, holding the `ticker` and `latest_price` columns and the remaining
 * numeric columns in column order.
 */
module Tables {
  import opened Wrappers

  type Ticker = string

  /** A numeric cell; None stands for a missing (JSON null, NaN) or undefined value. */
  type Value = Option<real>

  datatype Record = Record(ticker: Ticker, latestPrice: Value, metrics: seq<Value>)

  /** The exceptions the pipeline can raise. */
  datatype Error =
    | NoSections                                                  // array_split asked for zero chunks
    | MissingField(ticker: Ticker, category: string, field: string) // a key lookup in the response failed
    | EmptyPortfolio                                              // the allocator divided by a row count of zero

  /** Every record has exactly `w` metric columns. */
  predicate HasWidth(rows: seq<Record>, w: nat) {
    forall i :: 0 <= i < |rows| ==> |rows[i].metrics| == w
  }

  /** The number of metric columns of a table (taken from its first row). */
  function Width(rows: seq<Record>): nat {
    if |rows| == 0 then 0 else |rows[0].metrics|
  }

  /** The table is rectangular, as every data frame is. */
  predicate WellFormed(rows: seq<Record>) {
    HasWidth(rows, Width(rows))
  }

  lemma HasWidthWellFormed(rows: seq<Record>, w: nat)
    requires HasWidth(rows, w)
    ensures WellFormed(rows) && (|rows| > 0 ==> Width(rows) == w)
  {
  }

  /** Metric column `j` of a table, top to bottom. */
  function Column(rows: seq<Record>, j: nat): (col: seq<Value>)
    requires WellFormed(rows) && j < Width(rows)
    ensures |col| == |rows|
    ensures forall i :: 0 <= i < |rows| ==> col[i] == rows[i].metrics[j]
  {
    seq(|rows|, i requires 0 <= i < |rows| => rows[i].metrics[j])
  }

  /** The `ticker` column. */
  function Tickers(rows: seq<Record>): (ts: seq<Ticker>)
    ensures |ts| == |rows| && forall i :: 0 <= i < |rows| ==> ts[i] == rows[i].ticker
  {
    seq(|rows|, i requires 0 <= i < |rows| => rows[i].ticker)
  }

  /** The `latest_price` column. */
  function Prices(rows: seq<Record>): (ps: seq<Value>)
    ensures |ps| == |rows| && forall i :: 0 <= i < |rows| ==> ps[i] == rows[i].latestPrice
  {
    seq(|rows|, i requires 0 <= i < |rows| => rows[i].latestPrice)
  }

  /** The number of present values. */
  function Present(vs: seq<Value>): nat
    decreases |vs|
  {
    if |vs| == 0 then 0 else (if vs[0].Some? then 1 else 0) + Present(vs[1..])
  }

  /** The sum of the present values. */
  function Total(vs: seq<Value>): real
    decreases |vs|
  {
    if |vs| == 0 then 0.0 else (if vs[0].Some? then vs[0].value else 0.0) + Total(vs[1..])
  }

  /** The mean that skips missing values, missing when nothing is present (pandas `mean`). */
  function Mean(vs: seq<Value>): Value {
    if Present(vs) == 0 then None else Some(Total(vs) / Present(vs) as real)
  }

  /** Quotient that is undefined when either operand is missing or the divisor is zero. */
  function Div(a: Value, b: Value): (q: Value)
    ensures q.Some? <==> a.Some? && b.Some? && b.value != 0.0
    ensures q.Some? ==> q.value * b.value == a.value
  {
    if a.Some? && b.Some? && b.value != 0.0 then Some(a.value / b.value) else None
  }

  lemma {:induction false} PresentBound(vs: seq<Value>)
    ensures Present(vs) <= |vs|
    ensures Present(vs) == 0 <==> forall i :: 0 <= i < |vs| ==> vs[i].None?
    ensures Present(vs) == |vs| <==> forall i :: 0 <= i < |vs| ==> vs[i].Some?
    decreases |vs|
  {
    if |vs| > 0 {
      PresentBound(vs[1..]);
      assert forall i :: 1 <= i < |vs| ==> vs[i] == vs[1..][i - 1];
    }
  }

  /** Every present value lies in [lo, hi], so the total lies between count*lo and count*hi. */
  lemma TotalBounds(vs: seq<Value>, lo: real, hi: real)
    requires forall i :: 0 <= i < |vs| && vs[i].Some? ==> lo <= vs[i].value <= hi
    ensures Present(vs) as real * lo <= Total(vs) <= Present(vs) as real * hi
  {
    PerPresentBounds(vs, lo, hi);
    PerPresentIsProduct(vs, lo);
    PerPresentIsProduct(vs, hi);
  }

  /** `x` counted once for every present value: `Present(vs) * x` as a sum. */
  function PerPresent(vs: seq<Value>, x: real): real
    decreases |vs|
  {
    if |vs| == 0 then 0.0 else (if vs[0].Some? then x else 0.0) + PerPresent(vs[1..], x)
  }

  lemma {:induction false} PerPresentBounds(vs: seq<Value>, lo: real, hi: real)
    requires forall i :: 0 <= i < |vs| && vs[i].Some? ==> lo <= vs[i].value <= hi
    ensures PerPresent(vs, lo) <= Total(vs) <= PerPresent(vs, hi)
    decreases |vs|
  {
    if |vs| > 0 {
      var rest := vs[1..];
      assert forall i :: 0 <= i < |rest| ==> rest[i] == vs[i + 1];
      PerPresentBounds(rest, lo, hi);
    }
  }

  lemma {:induction false} PerPresentIsProduct(vs: seq<Value>, x: real)
    ensures PerPresent(vs, x) == Present(vs) as real * x
    decreases |vs|
  {
    if |vs| > 0 {
      PerPresentIsProduct(vs[1..], x);
      if vs[0].Some? {
        AddOnce(Present(vs[1..]) as real, Present(vs) as real, x);
      } else {
        SameProduct(Present(vs[1..]) as real, Present(vs) as real, x);
      }
    }
  }

  lemma AddOnce(k: real, k1: real, x: real)
    requires k1 == k + 1.0
    ensures k1 * x == k * x + x
  {
  }

  lemma SameProduct(a: real, b: real, x: real)
    requires a == b
    ensures a * x == b * x
  {
  }

  /** The mean of values that all lie in [lo, hi] lies in [lo, hi]. */
  lemma MeanBounds(vs: seq<Value>, lo: real, hi: real)
    requires forall i :: 0 <= i < |vs| && vs[i].Some? ==> lo <= vs[i].value <= hi
    ensures Mean(vs).Some? <==> exists i :: 0 <= i < |vs| && vs[i].Some?
    ensures Mean(vs).Some? ==> lo <= Mean(vs).value <= hi
  {
    PresentBound(vs);
    TotalBounds(vs, lo, hi);
    if Present(vs) > 0 {
      var c := Present(vs) as real;
      assert c * lo <= Total(vs) <= c * hi;
      QuotientBetween(Total(vs), c, lo, hi);
    }
  }

  /** Present values that are all positive have a positive mean. */
  lemma MeanPositive(vs: seq<Value>)
    requires forall i :: 0 <= i < |vs| && vs[i].Some? ==> vs[i].value > 0.0
    ensures Mean(vs).Some? ==> Mean(vs).value > 0.0
  {
    if Present(vs) > 0 {
      TotalPositive(vs);
      QuotientMonotone(0.0, Total(vs), Present(vs) as real);
    }
  }

  lemma {:induction false} TotalPositive(vs: seq<Value>)
    requires forall i :: 0 <= i < |vs| && vs[i].Some? ==> vs[i].value > 0.0
    requires Present(vs) > 0
    ensures Total(vs) > 0.0
    decreases |vs|
  {
    assert forall i :: 0 <= i < |vs[1..]| ==> vs[1..][i] == vs[i + 1];
    if vs[0].Some? {
      TotalNonNegative(vs[1..]);
    } else {
      TotalPositive(vs[1..]);
    }
  }

  lemma {:induction false} TotalNonNegative(vs: seq<Value>)
    requires forall i :: 0 <= i < |vs| && vs[i].Some? ==> vs[i].value >= 0.0
    ensures Total(vs) >= 0.0
    decreases |vs|
  {
    if |vs| > 0 {
      assert forall i :: 0 <= i < |vs[1..]| ==> vs[1..][i] == vs[i + 1];
      TotalNonNegative(vs[1..]);
    }
  }

  lemma QuotientBetween(t: real, c: real, lo: real, hi: real)
    requires c > 0.0 && c * lo <= t <= c * hi
    ensures lo <= t / c <= hi
  {
    var m := t / c;
    assert m * c == t;
    assert (m - lo) * c == t - c * lo;
    assert (hi - m) * c == c * hi - t;
  }

  lemma QuotientMonotone(a: real, b: real, c: real)
    requires c > 0.0 && a < b
    ensures a / c < b / c
  {
    assert (b / c - a / c) * c == b - a;
  }

  /**
   * Two rows of values with the same missing entries, where `xs` is
   * nowhere below `ys` and strictly above it at `j`, have a strictly larger mean.
   */
  lemma {:induction false} MeanStrictlyMonotone(xs: seq<Value>, ys: seq<Value>, j: nat)
    requires |xs| == |ys| && j < |xs| && xs[j].Some?
    requires forall i :: 0 <= i < |xs| ==> xs[i].Some? == ys[i].Some?
    requires forall i :: 0 <= i < |xs| && xs[i].Some? ==> ys[i].value <= xs[i].value
    requires ys[j].value < xs[j].value
    ensures Mean(xs).Some? && Mean(ys).Some? && Mean(ys).value < Mean(xs).value
  {
    SamePresence(xs, ys);
    TotalStrictlyMonotone(xs, ys, j);
    PresentBound(xs);
    QuotientMonotone(Total(ys), Total(xs), Present(xs) as real);
  }

  lemma {:induction false} SamePresence(xs: seq<Value>, ys: seq<Value>)
    requires |xs| == |ys|
    requires forall i :: 0 <= i < |xs| ==> xs[i].Some? == ys[i].Some?
    ensures Present(xs) == Present(ys)
    decreases |xs|
  {
    if |xs| > 0 {
      assert forall i :: 0 <= i < |xs[1..]| ==> xs[1..][i] == xs[i + 1] && ys[1..][i] == ys[i + 1];
      SamePresence(xs[1..], ys[1..]);
    }
  }

  lemma {:induction false} TotalMonotone(xs: seq<Value>, ys: seq<Value>)
    requires |xs| == |ys|
    requires forall i :: 0 <= i < |xs| ==> xs[i].Some? == ys[i].Some?
    requires forall i :: 0 <= i < |xs| && xs[i].Some? ==> ys[i].value <= xs[i].value
    ensures Total(ys) <= Total(xs)
    decreases |xs|
  {
    if |xs| > 0 {
      assert forall i :: 0 <= i < |xs[1..]| ==> xs[1..][i] == xs[i + 1] && ys[1..][i] == ys[i + 1];
      TotalMonotone(xs[1..], ys[1..]);
    }
  }

  lemma {:induction false} TotalStrictlyMonotone(xs: seq<Value>, ys: seq<Value>, j: nat)
    requires |xs| == |ys| && j < |xs| && xs[j].Some?
    requires forall i :: 0 <= i < |xs| ==> xs[i].Some? == ys[i].Some?
    requires forall i :: 0 <= i < |xs| && xs[i].Some? ==> ys[i].value <= xs[i].value
    requires ys[j].value < xs[j].value
    ensures Total(ys) < Total(xs)
    decreases |xs|
  {
    assert forall i :: 0 <= i < |xs[1..]| ==> xs[1..][i] == xs[i + 1] && ys[1..][i] == ys[i + 1];
    if j == 0 {
      TotalMonotone(xs[1..], ys[1..]);
    } else {
      TotalStrictlyMonotone(xs[1..], ys[1..], j - 1);
    }
  }
}
