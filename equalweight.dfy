/**
 * `equalweight.py`: the earlier, single-strategy script. Its loader requests
 * only the `stats` and `quote` types, but reads the same two quote fields per
 * symbol as the equal-weight loader of `algo.py`, so the two scripts build
 * the same portfolio.
 */
module EqualWeightScript {
  import opened Wrappers
  import opened Tables
  import Chunking
  import opened Extraction
  import opened Allocation
  import Algo

  /** `get_data_batch(df)`: ticker, latest price and market cap per answered symbol. */
  method GetDataBatch(tickers: seq<Ticker>, fetch: Chunking.Batch -> Response) returns (r: Result<seq<Record>, Error>)
    ensures r == StrategyData(EqualWeight, tickers, fetch)
    ensures |tickers| == 0 ==> r == Failure(NoSections)
    ensures r.Success? ==> HasWidth(r.value, 1) && Tickers(r.value) == AllKeys(Chunking.MakeChunks(tickers).value, fetch)
  {
    r := CollectBatches(EqualWeight, tickers, fetch);
    Algo.StrategyDataSpec(EqualWeight, tickers, fetch);
  }

  /** `make_equal_weight_portfolio(df, portfolio_size)` of this script. */
  function MakeEqualWeightPortfolio(tickers: seq<Ticker>, fetch: Chunking.Batch -> Response, portfolioSize: real)
    : (r: Result<seq<Allocation>, Error>)
    ensures r == Algo.MakeEqualWeightPortfolio(tickers, fetch, portfolioSize)
  {
    match StrategyData(EqualWeight, tickers, fetch)
    case Failure(e) => Failure(e)
    case Success(data) => GetShareAmounts(data, portfolioSize)
  }
}
