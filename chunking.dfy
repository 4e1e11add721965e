/**
 * Ticker batching: `make_chunks` hands the ticker list to numpy's
 * `array_split` with `ceil(n / 100)` sections. `array_split` does not cut
 * fixed-size pieces: with n = q*k + r it gives the first r chunks q + 1
 * elements and the other k - r chunks q elements, and it rejects zero sections.
 */
module Chunking {
  import opened Wrappers
  import opened Tables

  /** The API's limit on symbols per batch request. */
  const BATCH_LIMIT: nat := 100

  type Batch = seq<Ticker>

  /** `np.ceil(n / 100)`, the number of sections requested. */
  function SectionCount(n: nat): nat {
    (n + BATCH_LIMIT - 1) / BATCH_LIMIT
  }

  function Min(a: nat, b: nat): nat {
    if a <= b then a else b
  }

  /** Where section `i` of an `array_split` of `n` items into `k` sections starts. */
  function SectionStart(n: nat, k: nat, i: nat): nat
    requires k > 0
  {
    i * (n / k) + Min(i, n % k)
  }

  /** Section `i` has `n / k` items, plus one while `i < n % k`. */
  lemma SectionStep(n: nat, k: nat, i: nat)
    requires k > 0
    ensures SectionStart(n, k, i + 1) == SectionStart(n, k, i) + n / k + (if i < n % k then 1 else 0)
  {
    assert (i + 1) * (n / k) == i * (n / k) + n / k;
  }

  lemma {:induction false} SectionStartMonotone(n: nat, k: nat, i: nat, j: nat)
    requires k > 0 && i <= j
    ensures SectionStart(n, k, i) <= SectionStart(n, k, j)
    decreases j - i
  {
    if i < j {
      SectionStep(n, k, i);
      SectionStartMonotone(n, k, i + 1, j);
    }
  }

  lemma SectionEnd(n: nat, k: nat)
    requires k > 0
    ensures SectionStart(n, k, k) == n
  {
    assert n % k < k;
  }

  lemma SectionInRange(n: nat, k: nat, i: nat)
    requires k > 0 && i < k
    ensures SectionStart(n, k, i) <= SectionStart(n, k, i + 1) <= n
  {
    SectionStartMonotone(n, k, i, i + 1);
    SectionStartMonotone(n, k, i + 1, k);
    SectionEnd(n, k);
  }

  /** numpy `array_split(s, k)`. */
  function ArraySplit<T>(s: seq<T>, k: nat): (chunks: seq<seq<T>>)
    requires k > 0
  {
    seq(k, i requires 0 <= i < k =>
      SectionInRange(|s|, k, i);
      s[SectionStart(|s|, k, i)..SectionStart(|s|, k, i + 1)])
  }

  /** `make_chunks` in both scripts: an empty ticker list makes `array_split` raise. */
  function MakeChunks(tickers: seq<Ticker>): (r: Result<seq<Batch>, Error>)
    ensures r.Failure? <==> |tickers| == 0
    ensures r.Failure? ==> r.error == NoSections
  {
    var k := SectionCount(|tickers|);
    if k == 0 then Failure(NoSections) else Success(ArraySplit(tickers, k))
  }

  /** The chunks laid end to end. */
  function Flatten<T>(chunks: seq<seq<T>>): seq<T>
    decreases |chunks|
  {
    if |chunks| == 0 then [] else Flatten(chunks[..|chunks| - 1]) + chunks[|chunks| - 1]
  }

  lemma {:induction false} FlattenPrefix<T>(s: seq<T>, k: nat, i: nat)
    requires 0 < k && i <= k
    ensures SectionStart(|s|, k, i) <= |s|
    ensures Flatten(ArraySplit(s, k)[..i]) == s[..SectionStart(|s|, k, i)]
  {
    var chunks := ArraySplit(s, k);
    if i == 0 {
      assert chunks[..0] == [];
    } else {
      FlattenPrefix(s, k, i - 1);
      SectionInRange(|s|, k, i - 1);
      assert chunks[..i][..i - 1] == chunks[..i - 1];
      var a, b := SectionStart(|s|, k, i - 1), SectionStart(|s|, k, i);
      assert s[..a] + s[a..b] == s[..b];
    }
  }

  /** Flattening the chunks gives back the ticker list, in order. */
  lemma ChunksConcatenate(tickers: seq<Ticker>)
    requires MakeChunks(tickers).Success?
    ensures Flatten(MakeChunks(tickers).value) == tickers
  {
    var k := SectionCount(|tickers|);
    var chunks := ArraySplit(tickers, k);
    FlattenPrefix(tickers, k, k);
    SectionEnd(|tickers|, k);
    assert chunks[..k] == chunks;
  }

  /** There are ceil(n / 100) chunks: the fewest that hold n tickers 100 at a time. */
  lemma ChunkCount(tickers: seq<Ticker>)
    requires MakeChunks(tickers).Success?
    ensures var k := |MakeChunks(tickers).value|;
      BATCH_LIMIT * (k - 1) < |tickers| <= BATCH_LIMIT * k
  {
  }

  lemma MulMonotone(k: nat, a: nat, b: nat)
    requires a <= b
    ensures k * a <= k * b
  {
    assert k * b == k * a + k * (b - a);
  }

  /** With k = ceil(n / 100) sections, n / k lies in [1, 100], and in [1, 99] when n % k > 0. */
  lemma SectionShare(n: nat)
    requires n > 0
    ensures var k := SectionCount(n);
      k > 0 && 1 <= n / k && n / k + (if n % k > 0 then 1 else 0) <= BATCH_LIMIT
  {
    var k := SectionCount(n);
    var q, r := n / k, n % k;
    assert n == k * q + r;
    assert n <= BATCH_LIMIT * k;
    if q > BATCH_LIMIT || (q == BATCH_LIMIT && r > 0) {
      MulMonotone(k, BATCH_LIMIT, q);
      assert false;
    }
    assert BATCH_LIMIT * (k - 1) < n;
    if q == 0 {
      assert false;
    }
  }

  /**
   * Chunk sizes: every chunk holds between 1 and 100 tickers; chunk `i` holds
   * `n / k` tickers plus one for the first `n % k` chunks, so an earlier chunk is
   * never smaller than a later one and at most one larger.
   */
  lemma ChunkSizes(tickers: seq<Ticker>)
    requires MakeChunks(tickers).Success?
    ensures var chunks := MakeChunks(tickers).value;
      var n, k := |tickers|, |chunks|;
      && (forall i :: 0 <= i < k ==> |chunks[i]| == n / k + (if i < n % k then 1 else 0))
      && (forall i :: 0 <= i < k ==> 0 < |chunks[i]| <= BATCH_LIMIT)
      && (forall i, j :: 0 <= i < j < k ==> |chunks[j]| <= |chunks[i]| <= |chunks[j]| + 1)
  {
    var n := |tickers|;
    var k := SectionCount(n);
    var chunks := ArraySplit(tickers, k);
    forall i | 0 <= i < k
      ensures |chunks[i]| == n / k + (if i < n % k then 1 else 0)
    {
      SectionStep(n, k, i);
      SectionInRange(n, k, i);
    }
    SectionShare(n);
  }
}
