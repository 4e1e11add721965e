/**
 * Turning batch responses into rows. The response to one batch is a JSON
 * object keyed by ticker; each value maps a data category (`quote`, `stats`,
 * `advanced-stats`) to its fields. A chunk's table has one row per key of the
 * response, in the response's order, and its columns are read one at a time,
 * each by a list comprehension over all keys, so the first column with a
 * missing field raises, at the first key that lacks it.
 */
module Extraction {
  import opened Wrappers
  import opened Tables
  import opened Chunking

  /** One key of a batch response and its category -> field -> value object. */
  datatype Entry = Entry(key: Ticker, data: map<string, map<string, Value>>)

  /** A batch response, keys in the order the JSON object lists them. */
  type Response = seq<Entry>

  /** Where a column's values live in the response: `data[k][category][field]`. */
  datatype Source = Source(category: string, field: string)

  const LATEST_PRICE := Source("quote", "latestPrice")

  /** The three strategies, each with its own column list. */
  datatype Strategy = EqualWeight | Momentum | Value

  /** The columns after `ticker` and `latest_price`, as each `get_*_data` reads them. */
  function Fields(s: Strategy): seq<Source> {
    match s
    case EqualWeight => [Source("quote", "marketCap")]
    case Momentum => [Source("stats", "year1ChangePercent"), Source("stats", "month6ChangePercent"),
                      Source("stats", "month3ChangePercent"), Source("stats", "month1ChangePercent")]
    case Value => [Source("quote", "peRatio"), Source("advanced-stats", "priceToBook"),
                   Source("advanced-stats", "priceToSales"), Source("advanced-stats", "enterpriseValue"),
                   Source("advanced-stats", "EBITDA"), Source("advanced-stats", "grossProfit")]
  }

  /** The number of metric columns of a strategy's table: the value table derives two ratios from three columns. */
  function Width(s: Strategy): nat {
    if s.Value? then 5 else |Fields(s)|
  }

  predicate HasField(e: Entry, src: Source) {
    src.category in e.data && src.field in e.data[src.category]
  }

  function FieldValue(e: Entry, src: Source): Value
    requires HasField(e, src)
  {
    e.data[src.category][src.field]
  }

  /** The response's keys, in order. */
  function Keys(resp: Response): (ks: seq<Ticker>)
    ensures |ks| == |resp| && forall i :: 0 <= i < |resp| ==> ks[i] == resp[i].key
  {
    seq(|resp|, i requires 0 <= i < |resp| => resp[i].key)
  }

  /** The error a lookup raises at the first key lacking `src`, if any. */
  predicate FirstMissing(resp: Response, src: Source, i: int, err: Error) {
    && 0 <= i < |resp|
    && !HasField(resp[i], src)
    && (forall j :: 0 <= j < i ==> HasField(resp[j], src))
    && err == MissingField(resp[i].key, src.category, src.field)
  }

  /** `[data[k][category][field] for k in data.keys()]`. */
  function ColumnOf(resp: Response, src: Source): (r: Result<seq<Value>, Error>)
    ensures r.Success? <==> forall i :: 0 <= i < |resp| ==> HasField(resp[i], src)
    ensures r.Success? ==> (|r.value| == |resp| &&
      forall i :: 0 <= i < |resp| ==> r.value[i] == FieldValue(resp[i], src))
    ensures r.Failure? ==> exists i :: FirstMissing(resp, src, i, r.error)
    decreases |resp|
  {
    if |resp| == 0 then Success([])
    else if !HasField(resp[0], src) then
      assert FirstMissing(resp, src, 0, MissingField(resp[0].key, src.category, src.field));
      Failure(MissingField(resp[0].key, src.category, src.field))
    else
      match ColumnOf(resp[1..], src)
      case Failure(e) =>
        ghost var i :| FirstMissing(resp[1..], src, i, e);
        assert FirstMissing(resp, src, i + 1, e);
        Failure(e)
      case Success(rest) =>
        assert forall i :: 1 <= i < |resp| ==> resp[i] == resp[1..][i - 1];
        Success([FieldValue(resp[0], src)] + rest)
  }

  /** The columns for `srcs`, read left to right; the first failing column's error wins. */
  function ColumnsOf(resp: Response, srcs: seq<Source>): (r: Result<seq<seq<Value>>, Error>)
    ensures r.Success? <==> forall j, i :: 0 <= j < |srcs| && 0 <= i < |resp| ==> HasField(resp[i], srcs[j])
    ensures r.Success? ==> |r.value| == |srcs| && forall j :: 0 <= j < |srcs| ==>
      |r.value[j]| == |resp| && forall i :: 0 <= i < |resp| ==> r.value[j][i] == FieldValue(resp[i], srcs[j])
    decreases |srcs|
  {
    if |srcs| == 0 then Success([])
    else
      var first :- ColumnOf(resp, srcs[0]);
      var rest :- ColumnsOf(resp, srcs[1..]);
      assert forall j :: 1 <= j < |srcs| ==> srcs[j] == srcs[1..][j - 1];
      Success([first] + rest)
  }

  /** Every key of the response has a latest price and every field in `srcs`. */
  predicate Complete(resp: Response, srcs: seq<Source>) {
    && (forall i :: 0 <= i < |resp| ==> HasField(resp[i], LATEST_PRICE))
    && (forall j, i :: 0 <= j < |srcs| && 0 <= i < |resp| ==> HasField(resp[i], srcs[j]))
  }

  /**
   * The data frame built from one response: `ticker` from the keys,
   * `latest_price` from `quote.latestPrice`, then the strategy's columns.
   */
  function ExtractRows(resp: Response, srcs: seq<Source>): (r: Result<seq<Record>, Error>)
    ensures r.Success? <==> Complete(resp, srcs)
    ensures r.Success? ==> (|r.value| == |resp| && HasWidth(r.value, |srcs|) &&
      forall i :: 0 <= i < |resp| ==>
        && r.value[i].ticker == resp[i].key
        && r.value[i].latestPrice == FieldValue(resp[i], LATEST_PRICE)
        && forall j :: 0 <= j < |srcs| ==> r.value[i].metrics[j] == FieldValue(resp[i], srcs[j]))
  {
    var prices :- ColumnOf(resp, LATEST_PRICE);
    var cols :- ColumnsOf(resp, srcs);
    Success(seq(|resp|, i requires 0 <= i < |resp| =>
      Record(resp[i].key, prices[i], seq(|srcs|, j requires 0 <= j < |srcs| => cols[j][i]))))
  }

  /**
   * `value_df_transform` on one row with the columns peRatio, priceToBook,
   * priceToSales, enterpriseValue, EBITDA, grossProfit: the last three give way
   * to enterpriseValue/EBITDA and enterpriseValue/grossProfit.
   */
  function ValueRatios(row: Record): Record
    requires |row.metrics| == 6
  {
    var m := row.metrics;
    Record(row.ticker, row.latestPrice, [m[0], m[1], m[2], Div(m[3], m[4]), Div(m[3], m[5])])
  }

  /** `value_df_transform` on a whole frame. */
  function ValueTransform(rows: seq<Record>): (r: seq<Record>)
    requires HasWidth(rows, 6)
    ensures |r| == |rows| && HasWidth(r, 5)
  {
    seq(|rows|, i requires 0 <= i < |rows| => ValueRatios(rows[i]))
  }

  /**
   * After `value_df_transform` each row keeps ticker, latest_price, peRatio,
   * priceToBook and priceToSales, and holds enterpriseValue/EBITDA and
   * enterpriseValue/grossProfit: quotients that multiply back to the enterprise
   * value, undefined exactly when an operand is missing or the divisor is zero.
   */
  lemma ValueTransformColumns(rows: seq<Record>, i: nat)
    requires HasWidth(rows, 6) && i < |rows|
    ensures var row, out := rows[i], ValueTransform(rows)[i];
      var ev, ebitda, gp := row.metrics[3], row.metrics[4], row.metrics[5];
      && out.ticker == row.ticker && out.latestPrice == row.latestPrice
      && out.metrics == row.metrics[..3] + out.metrics[3..]
      && (out.metrics[3].Some? <==> ev.Some? && ebitda.Some? && ebitda.value != 0.0)
      && (out.metrics[3].Some? ==> out.metrics[3].value * ebitda.value == ev.value)
      && (out.metrics[4].Some? <==> ev.Some? && gp.Some? && gp.value != 0.0)
      && (out.metrics[4].Some? ==> out.metrics[4].value * gp.value == ev.value)
  {
    var m := rows[i].metrics;
    assert ValueTransform(rows)[i].metrics == [m[0], m[1], m[2], Div(m[3], m[4]), Div(m[3], m[5])];
  }

  /** An enterprise value of 100 with EBITDA 20 and gross profit 50 gives the ratios 5 and 2. */
  lemma ValueTransformExample()
    ensures var row := Record("X", Some(1.0), [None, None, None, Some(100.0), Some(20.0), Some(50.0)]);
      ValueTransform([row]) == [Record("X", Some(1.0), [None, None, None, Some(5.0), Some(2.0)])]
  {
    var row := Record("X", Some(1.0), [None, None, None, Some(100.0), Some(20.0), Some(50.0)]);
    assert ValueTransform([row])[0] == ValueRatios(row);
  }

  /** The frame one chunk contributes to `df_list`. */
  function ChunkFrame(s: Strategy, resp: Response): (r: Result<seq<Record>, Error>)
    ensures r.Success? <==> Complete(resp, Fields(s))
    ensures r.Success? ==> |r.value| == |resp| && HasWidth(r.value, Width(s)) && Tickers(r.value) == Keys(resp)
  {
    match ExtractRows(resp, Fields(s))
    case Failure(e) => Failure(e)
    case Success(rows) =>
      RowTickers(rows, resp);
      if s.Value? then
        ValueTransformTickers(rows);
        Success(ValueTransform(rows))
      else Success(rows)
  }

  lemma RowTickers(rows: seq<Record>, resp: Response)
    requires |rows| == |resp| && forall i :: 0 <= i < |resp| ==> rows[i].ticker == resp[i].key
    ensures Tickers(rows) == Keys(resp)
  {
  }

  lemma ValueTransformTickers(rows: seq<Record>)
    requires HasWidth(rows, 6)
    ensures Tickers(ValueTransform(rows)) == Tickers(rows)
  {
  }

  /** The chunk's frame can be built: no field the strategy reads is missing. */
  predicate ChunkOk(s: Strategy, resp: Response) {
    Complete(resp, Fields(s))
  }

  /** All the keys of the responses to `chunks`, chunk after chunk. */
  function AllKeys(chunks: seq<Batch>, fetch: Batch -> Response): seq<Ticker>
    decreases |chunks|
  {
    if |chunks| == 0 then [] else AllKeys(chunks[..|chunks| - 1], fetch) + Keys(fetch(chunks[|chunks| - 1]))
  }

  /**
   * `pd.concat(df_list)` after the loop over `chunks`: the chunk frames in
   * chunk order, or the error of the first chunk whose frame fails.
   */
  function Gather(s: Strategy, chunks: seq<Batch>, fetch: Batch -> Response): (r: Result<seq<Record>, Error>)
    ensures r.Success? <==> AllChunksOk(s, chunks, fetch)
    ensures r.Success? ==> HasWidth(r.value, Width(s)) && Tickers(r.value) == AllKeys(chunks, fetch)
    decreases |chunks|
  {
    if |chunks| == 0 then Success([])
    else
      var done :- Gather(s, chunks[..|chunks| - 1], fetch);
      var last :- ChunkFrame(s, fetch(chunks[|chunks| - 1]));
      TickersAppend(done, last);
      Success(done + last)
  }

  /** Every chunk's frame can be built. */
  predicate AllChunksOk(s: Strategy, chunks: seq<Batch>, fetch: Batch -> Response)
    decreases |chunks|
  {
    |chunks| == 0 || (AllChunksOk(s, chunks[..|chunks| - 1], fetch) && ChunkOk(s, fetch(chunks[|chunks| - 1])))
  }

  lemma {:induction false} AllChunksOkEach(s: Strategy, chunks: seq<Batch>, fetch: Batch -> Response)
    ensures AllChunksOk(s, chunks, fetch) <==> forall c :: 0 <= c < |chunks| ==> ChunkOk(s, fetch(chunks[c]))
    decreases |chunks|
  {
    if |chunks| > 0 {
      var init := chunks[..|chunks| - 1];
      AllChunksOkEach(s, init, fetch);
      assert forall c :: 0 <= c < |init| ==> init[c] == chunks[c];
    }
  }

  lemma TickersAppend(a: seq<Record>, b: seq<Record>)
    ensures Tickers(a + b) == Tickers(a) + Tickers(b)
  {
  }

  /** `get_*_data` as a function of the input tickers and the API. */
  function StrategyData(s: Strategy, tickers: seq<Ticker>, fetch: Batch -> Response): Result<seq<Record>, Error> {
    var chunks :- MakeChunks(tickers);
    Gather(s, chunks, fetch)
  }

  /**
   * The loop shared by `get_equal_weight_data`, `get_momentum_data`,
   * `get_value_data` and `get_data_batch`: one request per chunk, its frame
   * appended to the accumulated rows, then the rows concatenated.
   */
  method CollectBatches(s: Strategy, tickers: seq<Ticker>, fetch: Batch -> Response)
    returns (r: Result<seq<Record>, Error>)
    ensures r == StrategyData(s, tickers, fetch)
  {
    var chunks :- MakeChunks(tickers);
    var rows: seq<Record> := [];
    var c := 0;
    while c < |chunks|
      invariant 0 <= c <= |chunks|
      invariant Gather(s, chunks[..c], fetch) == Success(rows)
    {
      var frame := ChunkFrame(s, fetch(chunks[c]));
      if frame.Failure? {
        GatherFails(s, chunks, fetch, c, frame.error);
        return Failure(frame.error);
      }
      GatherExtends(s, chunks, fetch, c, rows, frame.value);
      rows := rows + frame.value;
      c := c + 1;
    }
    assert chunks[..|chunks|] == chunks;
    return Success(rows);
  }

  /** One more chunk: its frame is appended, or its error ends the gathering. */
  lemma GatherStep(s: Strategy, chunks: seq<Batch>, fetch: Batch -> Response, c: nat)
    requires c < |chunks| && Gather(s, chunks[..c], fetch).Success?
    ensures Gather(s, chunks[..c + 1], fetch) ==
      match ChunkFrame(s, fetch(chunks[c]))
      case Success(frame) => Success(Gather(s, chunks[..c], fetch).value + frame)
      case Failure(e) => Failure(e)
  {
    assert chunks[..c + 1][..c] == chunks[..c];
  }

  /** The loop body when the chunk's frame is built: the rows so far gain that frame. */
  lemma GatherExtends(s: Strategy, chunks: seq<Batch>, fetch: Batch -> Response, c: nat, rows: seq<Record>, frame: seq<Record>)
    requires c < |chunks| && Gather(s, chunks[..c], fetch) == Success(rows)
    requires ChunkFrame(s, fetch(chunks[c])) == Success(frame)
    ensures Gather(s, chunks[..c + 1], fetch) == Success(rows + frame)
  {
    GatherStep(s, chunks, fetch, c);
  }

  /** The loop body when the chunk's frame fails: that error is the result of the whole loop. */
  lemma GatherFails(s: Strategy, chunks: seq<Batch>, fetch: Batch -> Response, c: nat, e: Error)
    requires c < |chunks| && Gather(s, chunks[..c], fetch).Success?
    requires ChunkFrame(s, fetch(chunks[c])) == Failure(e)
    ensures Gather(s, chunks, fetch) == Failure(e)
  {
    GatherStep(s, chunks, fetch, c);
    GatherAbort(s, chunks, fetch, c + 1);
  }

  /** A chunk that fails decides the error of the whole loop: no later chunk is looked at. */
  lemma {:induction false} GatherAbort(s: Strategy, chunks: seq<Batch>, fetch: Batch -> Response, c: nat)
    requires c <= |chunks| && Gather(s, chunks[..c], fetch).Failure?
    ensures Gather(s, chunks, fetch) == Gather(s, chunks[..c], fetch)
    decreases |chunks| - c
  {
    if c == |chunks| {
      assert chunks[..c] == chunks;
    } else {
      assert chunks[..c + 1][..c] == chunks[..c];
      GatherAbort(s, chunks, fetch, c + 1);
    }
  }
}
