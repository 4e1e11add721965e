# Algorithmic trading portfolios, modelled in Dafny

The repository builds three stock portfolios from a list of ticker symbols:

- an equal-weight portfolio;
- a momentum portfolio, ranked by `hqm_score`;
- a value portfolio, ranked by `rv_score`.

Every pipeline works the same way:

1. Cut the ticker list into chunks of at most 100 with numpy's `array_split`.
2. Make one batch request per chunk.
3. Build one row per key of each response and concatenate the rows in chunk order.
4. For the two scored portfolios, replace every metric column by its percentile rank, append the row mean of the ranks as the score, sort by the score, and keep the first `stock_cutoff` rows.
5. Give every row `floor((portfolio_size / rows) / latest_price)` shares.

The model follows these files:

- `algorithmictrading/algo.py`: all three pipelines.
- `algorithmictrading/equalweight.py`: the earlier equal-weight script. Its `make_chunks` and `get_share_amounts` are the same definitions as in `algo.py`, so `Chunking.MakeChunks` and `Allocation.GetShareAmounts` model both. Its `get_data_batch` reads the same fields as `get_equal_weight_data`.

How the model represents things:

- A data frame is a sequence of `Tables.Record`. Each record holds `ticker`, `latest_price` and the numeric columns.
- A number is an `Option<real>`. `None` stands for a JSON null, NaN, or a quotient with a zero divisor.
- The batch API is a function parameter `fetch` from a chunk to its response. A response is the sequence of its keys, in order, each with its nested `category -> field -> value` map.
- The Python exceptions become `Failure` values:
  - `NoSections`: `array_split` called with zero sections.
  - `MissingField`: the first key lacking a field raises `KeyError`.
  - `EmptyPortfolio`: `get_share_amounts` divides by zero rows.

Modules, one file each:

- `Wrappers`: `Option` and `Result`.
- `Tables`: records, columns, and mean and division with missing values.
- `Chunking`: `make_chunks`.
- `Extraction`: the per-chunk loaders and `value_df_transform`.
- `Scoring`: the two scorers.
- `Imputation`: `fill_missing_vals`.
- `Allocation`: `get_share_amounts`.
- `Algo`: the data loaders and the `make_*_portfolio` pipelines of `algo.py`.
- `EqualWeightScript`: `equalweight.py`.

The loader loops are imperative in the source: each iteration appends a frame to `df_list`. So they are a `while` method, `Extraction.CollectBatches`, proved equal to the recursive specification `Extraction.StrategyData`. Everything else in the source is a chain of expressions, so everything else is a function.

## Model

| member | source | states |
|---|---|---|
| Chunking.MakeChunks | algorithmictrading/algo.py:10-11 | fails with `NoSections` exactly when the ticker list is empty; otherwise it yields `ceil(n/100)` sections in numpy `array_split` layout |
| Chunking.ChunksConcatenate | algorithmictrading/algo.py:10-11 | joining the chunks in order gives back the ticker list exactly |
| Chunking.ChunkCount | algorithmictrading/equalweight.py:11-12 | the number of chunks k is the least one whose 100 * k covers n: 100 * (k - 1) < n <= 100 * k |
| Chunking.ChunkSizes | algorithmictrading/algo.py:10-11 | chunk i has n / k + 1 entries when i < n % k and n / k otherwise; every chunk has between 1 and 100 entries; an earlier chunk is at most one larger than a later one and never smaller |
| Extraction.ColumnOf | algorithmictrading/algo.py:24-25 | one value per response key, in key order, exactly when every key has the field; otherwise the error names the first key lacking it |
| Extraction.ColumnsOf | algorithmictrading/algo.py:36-40 | the columns for a field list, read left to right; succeeds exactly when every key has every field, and holds each key's field value |
| Extraction.ExtractRows | algorithmictrading/algo.py:23-26 | one row per response key, in order, exactly when every key has `quote.latestPrice` and every listed field; each row's ticker is its key, and its latest price and metrics are that key's field values |
| Extraction.ValueTransform | algorithmictrading/algo.py:51-58 | keeps the row count and turns the six value columns into five |
| Extraction.ValueTransformColumns | algorithmictrading/algo.py:51-58 | ticker, latest price, peRatio, priceToBook and priceToSales are kept; the two new columns times EBITDA and times grossProfit give back enterpriseValue, and each is defined exactly when its operands are present and its divisor is non-zero |
| Extraction.ValueTransformExample | algorithmictrading/algo.py:53-54 | an enterprise value of 100 with EBITDA 20 and gross profit 50 gives the ratios 5 and 2 |
| Extraction.ChunkFrame | algorithmictrading/algo.py:64-83 | a chunk's frame builds exactly when its response carries every field the strategy reads; it then has one row per key, in key order, with the strategy's column count |
| Extraction.Gather | algorithmictrading/algo.py:21-28 | concatenating the chunk frames succeeds exactly when every chunk's frame builds; the rows are rectangular and their tickers are the response keys, chunk after chunk |
| Extraction.GatherStep | algorithmictrading/algo.py:21-27 | one more chunk either appends its frame to the rows gathered so far or ends the gathering with its own error |
| Extraction.GatherAbort | algorithmictrading/algo.py:21-27 | once a chunk fails, later chunks do not change the outcome |
| Extraction.CollectBatches | algorithmictrading/algo.py:18-28 | the loop over chunks returns exactly what `StrategyData` specifies: the chunking error, the first chunk error, or all frames concatenated in chunk order |
| Algo.StrategyDataSpec | algorithmictrading/algo.py:18-28 | an empty ticker list fails with `NoSections`; otherwise the load succeeds exactly when every chunk's response is complete, and then the rows are rectangular and their tickers are the response keys, chunk after chunk, so symbols the API does not return are absent |
| Algo.AllKeysEcho | algorithmictrading/algo.py:21-23 | when every response answers exactly its chunk's symbols, the keys over all chunks are the chunks joined |
| Algo.DataCoversTickers | algorithmictrading/algo.py:18-28 | when the API answers every requested symbol, the loaded tickers are the input tickers, in input order |
| Algo.GetEqualWeightData | algorithmictrading/algo.py:18-28 | the equal-weight loader equals its specification and yields one metric column (market cap) |
| Algo.GetMomentumData | algorithmictrading/algo.py:30-49 | the momentum loader equals its specification and yields four metric columns (the 1-year, 6-month, 3-month and 1-month changes) |
| Algo.GetValueData | algorithmictrading/algo.py:60-85 | the value loader equals its specification, applies the ratio transform per chunk, and yields five metric columns |
| Tables.Div | algorithmictrading/algo.py:53-54 | the quotient is defined exactly when both operands are present and the divisor is non-zero, and it multiplies back to the dividend |
| Tables.MeanBounds | algorithmictrading/algo.py:91 | the mean of the present values lies between any common lower and upper bound of them |
| Tables.MeanStrictlyMonotone | algorithmictrading/algo.py:91 | over two rows with the same missing entries, one entrywise at least the other and strictly greater somewhere, the mean is strictly greater |
| Scoring.RankBounds | algorithmictrading/algo.py:90 | an entry's rank is present exactly when the entry is, and then lies in (0, 1] |
| Scoring.RankOrder | algorithmictrading/algo.py:90 | of two present entries, the rank is strictly smaller exactly when the value is; equal values get equal (average) ranks |
| Scoring.RankStrictlyMonotone | algorithmictrading/algo.py:90 | a strictly larger value gets a strictly larger rank |
| Scoring.RankOne | algorithmictrading/algo.py:90 | an entry's rank is 1 exactly when every other present entry is strictly smaller than it |
| Scoring.ScoredRow | algorithmictrading/algo.py:89-91 | ticker and latest price pass through unchanged; each metric is replaced by its column rank, present exactly when the metric is, in (0, 1]; the appended score is the mean of the row's present ranks, missing only when every metric is, in (0, 1] |
| Scoring.HigherMetricsHigherScore | algorithmictrading/algo.py:90-91 | a row with the same missing entries as another, every metric at least as large and one strictly larger, gets a strictly higher score |
| Scoring.SortByScore | algorithmictrading/algo.py:92 | the sorted rows are a permutation of the input in score order, with missing scores last |
| Scoring.Head | algorithmictrading/algo.py:94 | `head(n)` is a prefix of min(n, len) rows, or all but the last -n rows when n is negative |
| Scoring.Shortlist | algorithmictrading/algo.py:88-95 | the shortlist has min(cutoff, n) rows in score order, drawn from the scored rows, and no scored row left out scores better than a row kept |
| Scoring.PrefixIsTop | algorithmictrading/algo.py:92-94 | any prefix of a score-sorted table is sorted, is a sub-multiset of it, and precedes every row after it |
| Scoring.HqmScore | algorithmictrading/algo.py:87-95 | the momentum shortlist is in non-increasing `hqm_score` order, missing scores last |
| Scoring.RvScore | algorithmictrading/algo.py:104-112 | the value shortlist is in non-decreasing `rv_score` order, missing scores last |
| Imputation.FillColumnEntries | algorithmictrading/algo.py:100 | present entries are kept and missing ones take the column mean; the result has no gap when any entry is present, and an all-missing column is unchanged |
| Imputation.FillWithPresent | algorithmictrading/algo.py:100 | filling with a present value leaves no missing entry |
| Imputation.FillWithTotal | algorithmictrading/algo.py:100 | filling with a present value adds that value to the column total once per missing entry |
| Imputation.FillKeepsMean | algorithmictrading/algo.py:100 | filling with the mean leaves the column mean unchanged |
| Imputation.FillColumnIdempotent | algorithmictrading/algo.py:100 | filling a filled column changes nothing |
| Imputation.FillColumnExample | algorithmictrading/algo.py:100 | a column 10, missing, 30 becomes 10, 20, 30 |
| Imputation.FillMissingVals | algorithmictrading/algo.py:97-102 | the filled table keeps its row count and its column count |
| Imputation.FillMissingValsColumns | algorithmictrading/algo.py:97-102 | the ticker column is unchanged, and latest price and every metric column are each filled with their own mean |
| Imputation.FillMissingValsIdempotent | algorithmictrading/algo.py:97-102 | filling a filled table changes nothing |
| Allocation.Trades | algorithmictrading/algo.py:116 | the trade count is defined exactly when the price is present and non-zero; at positive price p it is the whole t with t * p <= amount < (t + 1) * p, and it is non-negative for a non-negative amount |
| Allocation.GetShareAmounts | algorithmictrading/algo.py:114-116 | no rows gives `EmptyPortfolio`; otherwise every input row is kept, in order, with a trade count appended |
| Allocation.ShareBracket | algorithmictrading/algo.py:114-116 | a row with a positive price buys the whole number t of shares with t * price <= portfolio / rows < (t + 1) * price, and t >= 0 for a non-negative portfolio |
| Allocation.CostBelowShares | algorithmictrading/algo.py:115-116 | summed over rows at positive prices, the trades cost at most rows * share and more than rows * share minus the sum of the prices |
| Allocation.CostWithinPortfolio | algorithmictrading/algo.py:114-116 | at positive prices, the whole allocation costs at most the portfolio size and more than the portfolio size minus the sum of the prices |
| Algo.MakeEqualWeightPortfolio | algorithmictrading/algo.py:118-122 | loading errors pass through; a successful load gives one allocation per loaded row, in order, with the row unchanged, and an empty load gives `EmptyPortfolio` |
| Algo.EqualWeightCost | algorithmictrading/algo.py:118-122 | at positive prices, the equal-weight trades cost at most the portfolio size and leave less than one share per row unspent |
| Algo.CutoffSize | algorithmictrading/algo.py:94 | the rows `head(stock_cutoff)` keeps are no more than the rows there are, and no more than a non-negative cutoff |
| Algo.ShortlistSize | algorithmictrading/algo.py:92-94 | the shortlist has exactly the number of rows `head` keeps of the table |
| Algo.MakeMomentumPortfolio | algorithmictrading/algo.py:124-129 | loading errors pass through; the portfolio has exactly the rows `head(stock_cutoff)` keeps, in non-increasing `hqm_score` order; a shortlist with no rows gives `EmptyPortfolio` |
| Algo.MomentumPortfolioIsTop | algorithmictrading/algo.py:124-129 | the portfolio's rows are scored loaded rows, and no scored row left out has a higher `hqm_score` than one kept |
| Algo.MakeValuePortfolio | algorithmictrading/algo.py:131-136 | loading errors pass through; the portfolio has exactly the rows `head(stock_cutoff)` keeps, in non-decreasing `rv_score` order; a shortlist with no rows gives `EmptyPortfolio` |
| Algo.ValuePortfolioIsTop | algorithmictrading/algo.py:131-136 | the portfolio's rows are scored loaded rows, and no scored row left out has a lower `rv_score` than one kept |
| EqualWeightScript.GetDataBatch | algorithmictrading/equalweight.py:14-26 | the loop yields the equal-weight rows: no chunk for an empty list, otherwise one market-cap column, with tickers equal to the response keys chunk after chunk |
| EqualWeightScript.MakeEqualWeightPortfolio | algorithmictrading/equalweight.py:34-38 | the script's portfolio is the same as the equal-weight portfolio of `algo.py` |

## Left out

- `make_batch_api_call` and the URL building and `requests.get` in `get_data_batch`: network I/O. The response of each chunk is the value of the parameter `fetch`.
- `secrets.py`: this reads the API token from the environment. It is pure I/O.
- `export_to_excel`: spreadsheet formatting. It also reads globals defined only under `__main__`.
- The `__main__` blocks: CSV reading and printing. The script's portfolio size, 40000000, is the constant `Algo.PORTFOLIO_SIZE`, and the default cutoff of 50 is `Algo.STOCK_CUTOFF`.
- Floating point:
  - Numbers are exact `real`s, so rounding in the divisions and in `np.ceil(len(df) / 100)` is not modelled.
  - A division by zero yields a missing value, not IEEE infinity. This applies to the value ratios and to a zero latest price. Infinities and their ranks are therefore not modelled.
- Scoring.SortByScore: the order among rows with equal scores is that of an insertion sort. pandas leaves it unspecified, so no contract depends on it.
- Scoring.RankOne: a maximum gets rank 1 only when no other entry shares it. Tied maxima get their average rank, which is below 1. So the contract is stated as an if-and-only-if with a strict inequality.
- `fill_missing_vals` is modelled (`Imputation`), but no pipeline calls it. This follows the code: the portfolio pipelines rank the raw columns, and NaNs stay NaN. It also fills `latest_price`, because only `ticker` is set as the index.
- `pd.concat` on an empty list would raise, but the model never reaches that case: every non-empty ticker list has at least one chunk.
- The JSON response is modelled as a key sequence of nested maps. Python dict ordering and JSON parsing are not modelled.
