/** The MP3 worker's encoding loop: the samples are fed to the encoder in
    blocks of 1152, the last block clamped at the end of the array, and the
    worker reports its progress as a fraction every ten blocks. The encoder
    itself is outside the model; the loop's traversal and its progress
    reports are what is modelled. */
module Blocks {

  /** Samples per block handed to the encoder (one MPEG-1 Layer III frame). */
  const BlockSize: nat := 1152

  /** A progress report is posted for every tenth block. */
  const BlocksPerReport: nat := 10

  /** Sample offsets between two consecutive progress reports. */
  const ReportInterval: nat := BlockSize * BlocksPerReport

  /** All blocks joined back together in order. */
  function Flatten<T>(chunks: seq<seq<T>>): seq<T>
  {
    if |chunks| == 0 then [] else Flatten(chunks[..|chunks| - 1]) + chunks[|chunks| - 1]
  }

  /** Number of blocks of `size` needed to cover `len` samples. */
  function CeilDiv(len: nat, size: nat): nat
    requires size > 0
  {
    (len + size - 1) / size
  }

  /** The progress value posted at sample offset `i` of `len`. */
  function Fraction(i: nat, len: nat): real
    requires len > 0
  {
    (i as real) / (len as real)
  }

  lemma FractionStrictlyIncreasing(i: nat, j: nat, len: nat)
    requires len > 0 && i < j
    ensures Fraction(i, len) < Fraction(j, len)
  {
    var l := len as real;
    assert Fraction(i, len) * l == i as real;
    assert Fraction(j, len) * l == j as real;
  }

  lemma FractionBelowOne(i: nat, len: nat)
    requires i < len
    ensures 0.0 <= Fraction(i, len) < 1.0
  {
    var l := len as real;
    assert Fraction(i, len) * l == i as real;
  }

  /** Block `c` starts at a report boundary exactly when `c` is a multiple
      of ten. */
  lemma ReportBoundary(c: nat)
    ensures (c * BlockSize) % ReportInterval == 0 <==> c % BlocksPerReport == 0
  {
    var q, r := c / BlocksPerReport, c % BlocksPerReport;
    assert c * BlockSize == q * ReportInterval + r * BlockSize;
    assert 0 <= r * BlockSize < ReportInterval;
  }

  /** One more block adds a report exactly when it starts a group of ten. */
  lemma ReportCountStep(c: nat)
    ensures CeilDiv(c + 1, BlocksPerReport) == CeilDiv(c, BlocksPerReport) + (if c % BlocksPerReport == 0 then 1 else 0)
  {
  }

  /** The report count after block `c`: a block at a report boundary adds
      one report, posted at offset `c * BlockSize`, and any other adds none. */
  lemma ReportStep(c: nat, r: nat)
    requires r == CeilDiv(c, BlocksPerReport)
    ensures (c * BlockSize) % ReportInterval == 0 ==>
      r * ReportInterval == c * BlockSize && CeilDiv(c + 1, BlocksPerReport) == r + 1
    ensures (c * BlockSize) % ReportInterval != 0 ==> CeilDiv(c + 1, BlocksPerReport) == r
  {
    ReportBoundary(c);
    ReportCountStep(c);
    if c % BlocksPerReport == 0 {
      assert r == c / BlocksPerReport;
    }
  }

  /** `c` blocks are exactly enough for `len` samples. */
  lemma BlockCountExact(len: nat, c: nat)
    requires len <= c * BlockSize
    requires c == 0 || (c - 1) * BlockSize < len
    ensures c == CeilDiv(len, BlockSize)
  {
  }

  /** Block `k` of the stream: `subarray(k * 1152, k * 1152 + 1152)`, which
      stops at the end of the array. */
  function Block<T>(samples: seq<T>, k: nat): seq<T>
    requires k * BlockSize < |samples|
  {
    var lo := k * BlockSize;
    samples[lo .. if lo + BlockSize < |samples| then lo + BlockSize else |samples|]
  }

  /** The first `m` blocks joined are the samples up to offset `m * 1152`,
      or all of them. */
  lemma {:induction false} FlattenBlocks<T>(samples: seq<T>, chunks: seq<seq<T>>, m: nat)
    requires forall k :: 0 <= k < |chunks| ==> k * BlockSize < |samples| && chunks[k] == Block(samples, k)
    requires m <= |chunks|
    ensures Flatten(chunks[..m]) == samples[..if m * BlockSize < |samples| then m * BlockSize else |samples|]
    decreases m
  {
    if m > 0 {
      FlattenBlocks(samples, chunks, m - 1);
      assert chunks[..m][..m - 1] == chunks[..m - 1];
      var lo := (m - 1) * BlockSize;
      var hi := if m * BlockSize < |samples| then m * BlockSize else |samples|;
      assert samples[..hi] == samples[..lo] + samples[lo..hi];
    }
  }

  /** Every block is non-empty and at most 1152 long; all but the last are
      full. */
  lemma BlockSizes<T>(samples: seq<T>, chunks: seq<seq<T>>)
    requires forall k :: 0 <= k < |chunks| ==> k * BlockSize < |samples| && chunks[k] == Block(samples, k)
    ensures forall k :: 0 <= k < |chunks| ==> 0 < |chunks[k]| <= BlockSize
    ensures forall k :: 0 <= k < |chunks| - 1 ==> |chunks[k]| == BlockSize
  {
    forall k | 0 <= k < |chunks| - 1
      ensures |chunks[k]| == BlockSize
    {
      assert (k + 1) * BlockSize < |samples|;
    }
  }

  /** Reports posted at block offsets 0, 11520, 23040, ... inside the
      stream are fractions in [0, 1), strictly increasing. */
  lemma ReportsInOrder(reports: seq<real>, len: nat)
    requires forall k :: 0 <= k < |reports| ==> k * ReportInterval < len && reports[k] == Fraction(k * ReportInterval, len)
    ensures forall k :: 0 <= k < |reports| ==> 0.0 <= reports[k] < 1.0
    ensures forall j, k :: 0 <= j < k < |reports| ==> reports[j] < reports[k]
  {
    forall k | 0 <= k < |reports|
      ensures 0.0 <= reports[k] < 1.0
    {
      FractionBelowOne(k * ReportInterval, len);
    }
    forall j, k | 0 <= j < k < |reports|
      ensures reports[j] < reports[k]
    {
      FractionStrictlyIncreasing(j * ReportInterval, k * ReportInterval, len);
    }
  }

  /** The block loop: `subarray(i, i + blockSize)` for i = 0, 1152, ...,
      and a progress post whenever `i % (blockSize * 10) == 0`. */
  method EncodeBlocks<T>(samples: seq<T>) returns (chunks: seq<seq<T>>, reports: seq<real>)
    ensures Flatten(chunks) == samples
    ensures |chunks| == CeilDiv(|samples|, BlockSize)
    ensures forall k :: 0 <= k < |chunks| ==> k * BlockSize < |samples| && chunks[k] == Block(samples, k)
    ensures forall k :: 0 <= k < |chunks| ==> 0 < |chunks[k]| <= BlockSize
    ensures forall k :: 0 <= k < |chunks| - 1 ==> |chunks[k]| == BlockSize
    ensures |reports| == CeilDiv(|chunks|, BlocksPerReport)
    ensures forall k :: 0 <= k < |reports| ==> k * ReportInterval < |samples| && reports[k] == Fraction(k * ReportInterval, |samples|)
    ensures forall k :: 0 <= k < |reports| ==> 0.0 <= reports[k] < 1.0
    ensures forall j, k :: 0 <= j < k < |reports| ==> reports[j] < reports[k]
  {
    chunks, reports := [], [];
    var i := 0;
    while i < |samples|
      invariant i == |chunks| * BlockSize
      invariant |chunks| == 0 || (|chunks| - 1) * BlockSize < |samples|
      invariant forall k :: 0 <= k < |chunks| ==> k * BlockSize < |samples| && chunks[k] == Block(samples, k)
      invariant |reports| == CeilDiv(|chunks|, BlocksPerReport)
      invariant forall k :: 0 <= k < |reports| ==> k * ReportInterval < |samples| && reports[k] == Fraction(k * ReportInterval, |samples|)
    {
      var end := if i + BlockSize < |samples| then i + BlockSize else |samples|;
      ReportStep(|chunks|, |reports|);
      if i % ReportInterval == 0 {
        reports := reports + [Fraction(i, |samples|)];
      }
      chunks := chunks + [samples[i..end]];
      i := i + BlockSize;
    }
    BlockCountExact(|samples|, |chunks|);
    FlattenBlocks(samples, chunks, |chunks|);
    assert chunks[..|chunks|] == chunks;
    BlockSizes(samples, chunks);
    ReportsInOrder(reports, |samples|);
  }
}
