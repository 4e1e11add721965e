/**
 * `get_share_amounts`: the portfolio is split evenly over the rows and each
 * row gets `recommended_trades = floor((portfolio_size / rows) / latest_price)`;
 * an empty table makes the division by the row count raise.
 */
module Allocation {
  import opened Wrappers
  import opened Tables

  /** A row of the input table with the `recommended_trades` column appended. */
  datatype Allocation = Allocation(record: Record, recommendedTrades: Option<int>)

  /** Whole shares that `amount` buys at `price`; undefined for a missing or zero price. */
  function Trades(amount: real, price: Value): (t: Option<int>)
    ensures t.Some? <==> price.Some? && price.value != 0.0
    ensures t.Some? && price.value > 0.0 ==>
      (t.value as real) * price.value <= amount < (t.value as real + 1.0) * price.value
    ensures t.Some? && price.value > 0.0 && amount >= 0.0 ==> t.value >= 0
  {
    match price
    case None => None
    case Some(p) =>
      if p == 0.0 then None
      else
        var t := (amount / p).Floor;
        FloorBracket(amount, p, t);
        Some(t)
  }

  lemma FloorBracket(amount: real, p: real, t: int)
    requires p != 0.0 && t == (amount / p).Floor
    ensures p > 0.0 ==> (t as real) * p <= amount < (t as real + 1.0) * p
    ensures p > 0.0 && amount >= 0.0 ==> t >= 0
  {
    if p > 0.0 {
      FloorScaled(amount, p, t);
      if amount >= 0.0 {
        FloorNonNegative(amount, p, t);
      }
    }
  }

  /** floor(a / p) shares at price p > 0 cost at most a, and one more share costs more. */
  lemma FloorScaled(amount: real, p: real, t: int)
    requires p > 0.0 && t == (amount / p).Floor
    ensures (t as real) * p <= amount < (t as real + 1.0) * p
  {
    var q := amount / p;
    var lo, hi := t as real, t as real + 1.0;
    assert q * p == amount;
    ScaleBetween(lo, q, hi, p);
    var below, above := lo * p, hi * p;
    assert below <= amount;
    assert amount < above;
  }

  lemma FloorNonNegative(amount: real, p: real, t: int)
    requires p > 0.0 && t == (amount / p).Floor && amount >= 0.0
    ensures t >= 0
  {
    var q := amount / p;
    assert q * p == amount;
    assert q >= 0.0;
  }

  /** Multiplying lo <= x < hi by a positive factor keeps the order. */
  lemma ScaleBetween(lo: real, x: real, hi: real, p: real)
    requires p > 0.0 && lo <= x < hi
    ensures lo * p <= x * p < hi * p
  {
    assert x * p - lo * p == (x - lo) * p;
    assert hi * p - x * p == (hi - x) * p;
  }

  /** `get_share_amounts(df, portfolio_size)`. */
  function GetShareAmounts(rows: seq<Record>, portfolioSize: real): (r: Result<seq<Allocation>, Error>)
    ensures r.Failure? <==> |rows| == 0
    ensures r.Failure? ==> r.error == EmptyPortfolio
    ensures r.Success? ==> |r.value| == |rows| && forall i :: 0 <= i < |rows| ==> r.value[i].record == rows[i]
  {
    if |rows| == 0 then Failure(EmptyPortfolio)
    else
      var amount := portfolioSize / |rows| as real;
      Success(seq(|rows|, i requires 0 <= i < |rows| => Allocation(rows[i], Trades(amount, rows[i].latestPrice))))
  }

  /**
   * With a positive price, a row's trades cost at most its even share of the
   * portfolio and one more share would cost more than that share.
   */
  lemma ShareBracket(rows: seq<Record>, portfolioSize: real, i: nat)
    requires GetShareAmounts(rows, portfolioSize).Success? && i < |rows|
    requires rows[i].latestPrice.Some? && rows[i].latestPrice.value > 0.0
    ensures var a := GetShareAmounts(rows, portfolioSize).value[i];
      var p, share := rows[i].latestPrice.value, portfolioSize / |rows| as real;
      && a.recommendedTrades.Some?
      && (a.recommendedTrades.value as real) * p <= share < (a.recommendedTrades.value as real + 1.0) * p
      && (portfolioSize >= 0.0 ==> a.recommendedTrades.value >= 0)
  {
  }

  /** Every row has a positive latest price. */
  predicate PricesPositive(rows: seq<Record>) {
    forall i :: 0 <= i < |rows| ==> rows[i].latestPrice.Some? && rows[i].latestPrice.value > 0.0
  }

  /** What one row's recommended trades cost (nothing without trades or price). */
  function RowCost(a: Allocation): real {
    if a.recommendedTrades.Some? && a.record.latestPrice.Some?
    then (a.recommendedTrades.value as real) * a.record.latestPrice.value else 0.0
  }

  /** What the recommended trades cost, summed over the rows. */
  function Cost(allocs: seq<Allocation>): real
    decreases |allocs|
  {
    if |allocs| == 0 then 0.0 else Cost(allocs[..|allocs| - 1]) + RowCost(allocs[|allocs| - 1])
  }

  /** The sum of the latest prices. */
  function PriceSum(rows: seq<Record>): real
    requires PricesPositive(rows)
    decreases |rows|
  {
    if |rows| == 0 then 0.0 else PriceSum(rows[..|rows| - 1]) + rows[|rows| - 1].latestPrice.value
  }

  /** A row that spends `share` at a positive price costs at most `share`, and less than one share short of it. */
  lemma RowCostBracket(a: Allocation, share: real)
    requires a.record.latestPrice.Some? && a.record.latestPrice.value > 0.0
    requires a.recommendedTrades == Trades(share, a.record.latestPrice)
    ensures RowCost(a) <= share && share - a.record.latestPrice.value < RowCost(a)
  {
    var t, p := a.recommendedTrades.value as real, a.record.latestPrice.value;
    assert t * p <= share < (t + 1.0) * p;
    assert (t + 1.0) * p == t * p + p;
  }

  /** Summing the per-row bounds over a table of positive prices. */
  lemma {:induction false} CostBelowShares(rows: seq<Record>, allocs: seq<Allocation>, share: real)
    requires |allocs| == |rows| && PricesPositive(rows)
    requires forall i :: 0 <= i < |allocs| ==>
      allocs[i].record == rows[i] && RowCost(allocs[i]) <= share && share - rows[i].latestPrice.value < RowCost(allocs[i])
    ensures Cost(allocs) <= |rows| as real * share
    ensures |rows| == 0 || |rows| as real * share - PriceSum(rows) < Cost(allocs)
    decreases |allocs|
  {
    if |allocs| > 0 {
      var n := |allocs|;
      var init := allocs[..n - 1];
      CostBelowShares(rows[..n - 1], init, share);
      MulSucc(|rows[..n - 1]| as real, |rows| as real, share);
      if n == 1 {
        assert Cost(init) == 0.0 && PriceSum(rows[..n - 1]) == 0.0;
      }
    }
  }

  lemma MulSucc(m: real, m1: real, x: real)
    requires m1 == m + 1.0
    ensures m1 * x == m * x + x
  {
  }

  /**
   * With positive prices, the trades of the whole table cost at most the
   * portfolio size, and less than one share per row short of it.
   */
  lemma CostWithinPortfolio(rows: seq<Record>, portfolioSize: real, allocs: seq<Allocation>)
    requires PricesPositive(rows) && GetShareAmounts(rows, portfolioSize) == Success(allocs)
    ensures portfolioSize - PriceSum(rows) < Cost(allocs) <= portfolioSize
  {
    RowsBracketed(rows, portfolioSize, allocs);
    BracketedCost(rows, allocs, portfolioSize / |rows| as real, portfolioSize);
  }

  /** Rows that each spend at most an even share, and less than a share short of it, spend the portfolio. */
  lemma BracketedCost(rows: seq<Record>, allocs: seq<Allocation>, share: real, portfolioSize: real)
    requires |allocs| == |rows| > 0 && PricesPositive(rows)
    requires forall i :: 0 <= i < |allocs| ==>
      allocs[i].record == rows[i] && RowCost(allocs[i]) <= share && share - rows[i].latestPrice.value < RowCost(allocs[i])
    requires share == portfolioSize / |rows| as real
    ensures portfolioSize - PriceSum(rows) < Cost(allocs) <= portfolioSize
  {
    CostBelowShares(rows, allocs, share);
    MulDiv(portfolioSize, |rows| as real, share);
  }

  /** At positive prices, every row costs at most its even share and less than one share short of it. */
  lemma RowsBracketed(rows: seq<Record>, portfolioSize: real, allocs: seq<Allocation>)
    requires PricesPositive(rows) && GetShareAmounts(rows, portfolioSize) == Success(allocs)
    ensures var share := portfolioSize / |rows| as real;
      forall i :: 0 <= i < |allocs| ==>
        allocs[i].record == rows[i] && RowCost(allocs[i]) <= share && share - rows[i].latestPrice.value < RowCost(allocs[i])
  {
    var share := portfolioSize / |rows| as real;
    forall i | 0 <= i < |allocs|
      ensures allocs[i].record == rows[i] && RowCost(allocs[i]) <= share
      ensures share - rows[i].latestPrice.value < RowCost(allocs[i])
    {
      ShareAmountsAt(rows, portfolioSize, i);
      RowCostBracket(allocs[i], share);
    }
  }

  /** Row `i` of the allocation buys whole shares for the even share of the portfolio. */
  lemma ShareAmountsAt(rows: seq<Record>, portfolioSize: real, i: nat)
    requires GetShareAmounts(rows, portfolioSize).Success? && i < |rows|
    ensures GetShareAmounts(rows, portfolioSize).value[i] ==
      Allocation(rows[i], Trades(portfolioSize / |rows| as real, rows[i].latestPrice))
  {
  }

  lemma MulDiv(x: real, c: real, q: real)
    requires c > 0.0 && q == x / c
    ensures c * q == x
  {
  }
}
