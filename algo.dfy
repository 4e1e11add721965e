/**
 * `algo.py`: the three data loaders and the three portfolio pipelines.
 * Each pipeline loads one row per ticker the API answers, optionally scores
 * and shortlists them, and then sizes an equal-weight position in each.
 */
module Algo {
  import opened Wrappers
  import opened Tables
  import Chunking
  import opened Extraction
  import Scoring
  import opened Allocation

  /** The default `stock_cutoff` of the scored pipelines. */
  const STOCK_CUTOFF: int := 50

  /** The `portfolio_size` the script runs the pipelines with. */
  const PORTFOLIO_SIZE: real := 40000000.0

  /**
   * What a loader returns: no chunk for an empty ticker list; otherwise the
   * rows exist exactly when every chunk's response carries every field the
   * strategy reads, and then they are rectangular and list the response keys
   * chunk after chunk.
   */
  lemma StrategyDataSpec(s: Strategy, tickers: seq<Ticker>, fetch: Chunking.Batch -> Response)
    ensures |tickers| == 0 ==> StrategyData(s, tickers, fetch) == Failure(NoSections)
    ensures |tickers| > 0 ==>
      var chunks, d := Chunking.MakeChunks(tickers).value, StrategyData(s, tickers, fetch);
      && (d.Success? <==> forall c :: 0 <= c < |chunks| ==> Complete(fetch(chunks[c]), Fields(s)))
      && (d.Success? ==> HasWidth(d.value, Extraction.Width(s)) && Tickers(d.value) == AllKeys(chunks, fetch))
  {
    if |tickers| > 0 {
      AllChunksOkEach(s, Chunking.MakeChunks(tickers).value, fetch);
    }
  }

  /** When every response answers exactly the symbols of its chunk, the keys are the chunks joined. */
  lemma {:induction false} AllKeysEcho(chunks: seq<Chunking.Batch>, fetch: Chunking.Batch -> Response)
    requires forall c :: 0 <= c < |chunks| ==> Keys(fetch(chunks[c])) == chunks[c]
    ensures AllKeys(chunks, fetch) == Chunking.Flatten(chunks)
    decreases |chunks|
  {
    if |chunks| > 0 {
      var init := chunks[..|chunks| - 1];
      assert forall c :: 0 <= c < |init| ==> init[c] == chunks[c];
      AllKeysEcho(init, fetch);
    }
  }

  /**
   * When the API answers every requested symbol, the loaded rows list the
   * input tickers exactly, in input order.
   */
  lemma DataCoversTickers(s: Strategy, tickers: seq<Ticker>, fetch: Chunking.Batch -> Response)
    requires |tickers| > 0
    requires var chunks := Chunking.MakeChunks(tickers).value;
      forall c :: 0 <= c < |chunks| ==> Keys(fetch(chunks[c])) == chunks[c]
    ensures StrategyData(s, tickers, fetch).Success? ==> Tickers(StrategyData(s, tickers, fetch).value) == tickers
  {
    var chunks := Chunking.MakeChunks(tickers).value;
    StrategyDataSpec(s, tickers, fetch);
    AllKeysEcho(chunks, fetch);
    Chunking.ChunksConcatenate(tickers);
  }

  /** `get_equal_weight_data(df)`: ticker, latest price and market cap per answered symbol. */
  method GetEqualWeightData(tickers: seq<Ticker>, fetch: Chunking.Batch -> Response) returns (r: Result<seq<Record>, Error>)
    ensures r == StrategyData(EqualWeight, tickers, fetch)
    ensures r.Success? ==> |tickers| > 0 && HasWidth(r.value, 1)
  {
    r := CollectBatches(EqualWeight, tickers, fetch);
    StrategyDataSpec(EqualWeight, tickers, fetch);
  }

  /** `get_momentum_data(df)`: the four price-change percentages per answered symbol. */
  method GetMomentumData(tickers: seq<Ticker>, fetch: Chunking.Batch -> Response) returns (r: Result<seq<Record>, Error>)
    ensures r == StrategyData(Momentum, tickers, fetch)
    ensures r.Success? ==> |tickers| > 0 && HasWidth(r.value, 4)
  {
    r := CollectBatches(Momentum, tickers, fetch);
    StrategyDataSpec(Momentum, tickers, fetch);
  }

  /** `get_value_data(df)`: the five value ratios per answered symbol. */
  method GetValueData(tickers: seq<Ticker>, fetch: Chunking.Batch -> Response) returns (r: Result<seq<Record>, Error>)
    ensures r == StrategyData(Strategy.Value, tickers, fetch)
    ensures r.Success? ==> |tickers| > 0 && HasWidth(r.value, 5)
  {
    r := CollectBatches(Strategy.Value, tickers, fetch);
    StrategyDataSpec(Strategy.Value, tickers, fetch);
  }

  /**
   * `make_equal_weight_portfolio(df, portfolio_size)`: one allocation per
   * loaded row, in load order; loading errors pass through, and a load with no
   * rows makes the allocator fail.
   */
  function MakeEqualWeightPortfolio(tickers: seq<Ticker>, fetch: Chunking.Batch -> Response, portfolioSize: real)
    : (r: Result<seq<Allocation>, Error>)
    ensures var d := StrategyData(EqualWeight, tickers, fetch);
      && (d.Failure? ==> r == Failure(d.error))
      && (d.Success? ==> (r.Success? <==> |d.value| > 0))
      && (d.Success? && r.Failure? ==> r.error == EmptyPortfolio)
      && (r.Success? ==> d.Success? && |r.value| == |d.value|)
      && (r.Success? ==> forall i :: 0 <= i < |r.value| ==> r.value[i].record == d.value[i])
  {
    var data :- StrategyData(EqualWeight, tickers, fetch);
    GetShareAmounts(data, portfolioSize)
  }

  /**
   * With positive prices, the equal-weight trades spend at most the
   * portfolio and leave less than one share per row unspent.
   */
  lemma EqualWeightCost(tickers: seq<Ticker>, fetch: Chunking.Batch -> Response, portfolioSize: real)
    requires MakeEqualWeightPortfolio(tickers, fetch, portfolioSize).Success?
    requires PricesPositive(StrategyData(EqualWeight, tickers, fetch).value)
    ensures var rows, allocs := StrategyData(EqualWeight, tickers, fetch).value,
        MakeEqualWeightPortfolio(tickers, fetch, portfolioSize).value;
      portfolioSize - PriceSum(rows) < Cost(allocs) <= portfolioSize
  {
    var rows := StrategyData(EqualWeight, tickers, fetch).value;
    CostWithinPortfolio(rows, portfolioSize, GetShareAmounts(rows, portfolioSize).value);
  }

  /** The size `head(stock_cutoff)` leaves of `n` rows. */
  function CutoffSize(n: nat, cutoff: int): (m: nat)
    ensures m <= n
    ensures cutoff >= 0 ==> m <= cutoff
  {
    if cutoff >= 0 then Scoring.Min(cutoff, n) else if n + cutoff < 0 then 0 else n + cutoff
  }

  /** The score order the shortlist of a pipeline follows. */
  predicate RanksByScore(allocs: seq<Allocation>, descending: bool) {
    forall i, j :: 0 <= i < j < |allocs| && Scoring.ScoreOf(allocs[j].record).Some? ==>
      var a, b := Scoring.ScoreOf(allocs[i].record), Scoring.ScoreOf(allocs[j].record);
      a.Some? && (if descending then a.value >= b.value else a.value <= b.value)
  }

  /**
   * `make_momentum_portfolio(df, portfolio_size, stock_cutoff)`: the
   * shortlist of the loaded rows by `hqm_score`, highest first, each with its
   * trades; an empty shortlist makes the allocator fail.
   */
  function MakeMomentumPortfolio(tickers: seq<Ticker>, fetch: Chunking.Batch -> Response, portfolioSize: real, cutoff: int)
    : (r: Result<seq<Allocation>, Error>)
    ensures var d := StrategyData(Momentum, tickers, fetch);
      && (d.Failure? ==> r == Failure(d.error))
      && (d.Success? ==> (r.Success? <==> CutoffSize(|d.value|, cutoff) > 0))
      && (d.Success? && r.Failure? ==> r.error == EmptyPortfolio)
      && (r.Success? ==> d.Success? && |r.value| == CutoffSize(|d.value|, cutoff))
      && (r.Success? ==> RanksByScore(r.value, true))
  {
    var data :- StrategyData(Momentum, tickers, fetch);
    HasWidthWellFormed(data, Extraction.Width(Momentum));
    var short := Scoring.HqmScore(data, cutoff);
    ShortlistSize(data, cutoff, true);
    GetShareAmounts(short, portfolioSize)
  }

  /**
   * `make_value_portfolio(df, portfolio_size, stock_cutoff)`: the shortlist
   * of the loaded rows by `rv_score`, lowest first, each with its trades; an
   * empty shortlist makes the allocator fail.
   */
  function MakeValuePortfolio(tickers: seq<Ticker>, fetch: Chunking.Batch -> Response, portfolioSize: real, cutoff: int)
    : (r: Result<seq<Allocation>, Error>)
    ensures var d := StrategyData(Strategy.Value, tickers, fetch);
      && (d.Failure? ==> r == Failure(d.error))
      && (d.Success? ==> (r.Success? <==> CutoffSize(|d.value|, cutoff) > 0))
      && (d.Success? && r.Failure? ==> r.error == EmptyPortfolio)
      && (r.Success? ==> d.Success? && |r.value| == CutoffSize(|d.value|, cutoff))
      && (r.Success? ==> RanksByScore(r.value, false))
  {
    var data :- StrategyData(Strategy.Value, tickers, fetch);
    HasWidthWellFormed(data, Extraction.Width(Strategy.Value));
    var short := Scoring.RvScore(data, cutoff);
    ShortlistSize(data, cutoff, false);
    GetShareAmounts(short, portfolioSize)
  }

  /** The shortlist keeps `head`'s count of the scored rows. */
  lemma ShortlistSize(rows: seq<Record>, cutoff: int, descending: bool)
    requires WellFormed(rows)
    ensures |Scoring.Shortlist(rows, cutoff, descending)| == CutoffSize(|rows|, cutoff)
  {
    var sorted := Scoring.SortByScore(Scoring.Scored(rows), descending);
    assert |sorted| == |rows| by {
      assert |multiset(sorted)| == |multiset(Scoring.Scored(rows))|;
    }
  }

  /**
   * Every row of a scored portfolio is a scored loaded row, and no loaded row
   * left out of it scores better than a row in it.
   */
  lemma MomentumPortfolioIsTop(tickers: seq<Ticker>, fetch: Chunking.Batch -> Response, portfolioSize: real, cutoff: int)
    requires MakeMomentumPortfolio(tickers, fetch, portfolioSize, cutoff).Success?
    ensures var rows := StrategyData(Momentum, tickers, fetch).value;
      var allocs := MakeMomentumPortfolio(tickers, fetch, portfolioSize, cutoff).value;
      WellFormed(rows) &&
      var scored := Scoring.Scored(rows);
      var kept := Records(allocs);
      && multiset(kept) <= multiset(scored)
      && forall x, y :: x in multiset(kept) && y in multiset(scored) - multiset(kept) ==>
           Scoring.Precedes(Scoring.ScoreOf(x), Scoring.ScoreOf(y), true)
  {
    var rows := StrategyData(Momentum, tickers, fetch).value;
    HasWidthWellFormed(rows, Extraction.Width(Momentum));
    var short := Scoring.HqmScore(rows, cutoff);
    assert MakeMomentumPortfolio(tickers, fetch, portfolioSize, cutoff) == GetShareAmounts(short, portfolioSize);
    SharesKeepRecords(short, portfolioSize);
  }

  /** The value portfolio keeps the loaded rows with the lowest `rv_score`. */
  lemma ValuePortfolioIsTop(tickers: seq<Ticker>, fetch: Chunking.Batch -> Response, portfolioSize: real, cutoff: int)
    requires MakeValuePortfolio(tickers, fetch, portfolioSize, cutoff).Success?
    ensures var rows := StrategyData(Strategy.Value, tickers, fetch).value;
      var allocs := MakeValuePortfolio(tickers, fetch, portfolioSize, cutoff).value;
      WellFormed(rows) &&
      var scored := Scoring.Scored(rows);
      var kept := Records(allocs);
      && multiset(kept) <= multiset(scored)
      && forall x, y :: x in multiset(kept) && y in multiset(scored) - multiset(kept) ==>
           Scoring.Precedes(Scoring.ScoreOf(x), Scoring.ScoreOf(y), false)
  {
    var rows := StrategyData(Strategy.Value, tickers, fetch).value;
    HasWidthWellFormed(rows, Extraction.Width(Strategy.Value));
    var short := Scoring.RvScore(rows, cutoff);
    assert MakeValuePortfolio(tickers, fetch, portfolioSize, cutoff) == GetShareAmounts(short, portfolioSize);
    SharesKeepRecords(short, portfolioSize);
  }

  /** The records behind a portfolio's allocations, in order. */
  function Records(allocs: seq<Allocation>): (r: seq<Record>)
    ensures |r| == |allocs| && forall i :: 0 <= i < |allocs| ==> r[i] == allocs[i].record
  {
    seq(|allocs|, i requires 0 <= i < |allocs| => allocs[i].record)
  }

  /** The allocator keeps its rows, in order. */
  lemma SharesKeepRecords(rows: seq<Record>, portfolioSize: real)
    requires GetShareAmounts(rows, portfolioSize).Success?
    ensures Records(GetShareAmounts(rows, portfolioSize).value) == rows
  {
  }
}
