/** What a decoded sample is, in terms of the bytes of the file and the samples before it. */
module AdpcmSamples {
  import opened Arith
  import opened AdpcmDecoder
  import opened AdpcmEncoder
  import opened AdpcmStreams

  /** The weights, in 64ths, of the last sample and of the one before it. */
  function Weights(filter: nat): (int, int)
    requires filter < 5
  {
    if filter == 0 then (0, 0)
    else if filter == 1 then (60, 0)
    else if filter == 2 then (115, -52)
    else if filter == 3 then (98, -55)
    else (122, -60)
  }

  /** p is the weighted sum of two samples plus one half, cut off towards zero. */
  predicate Predicted(filter: nat, last: int, before: int, p: int)
    requires filter < 5
  {
    var (a, b) := Weights(filter);
    var t := a * last + b * before + 32;
    if t >= 0 then 64 * p <= t < 64 * p + 64 else 64 * p - 64 < t <= 64 * p
  }

  /** n is the signed number in the low or in the high half of a byte. */
  predicate InByte(b: byte, high: bool, n: int) {
    -8 <= n < 8 && (if n < 0 then n + 16 else n) == if high then b / 16 else b % 16
  }

  /** e is n * 2^12 / 2^shift, rounded down. */
  predicate Expanded(n: int, shift: nat, e: int) {
    e * Pow2(shift) <= n * 4096 < (e + 1) * Pow2(shift)
  }

  function Distance(x: int, y: int): nat {
    if x < y then y - x else x - y
  }

  ghost predicate Nearest(x: int, sample: int) {
    IsS16(sample) && forall y :: IsS16(y) ==> Distance(x, sample) <= Distance(x, y)
  }

  ghost predicate IsSample(filter: nat, shift: nat, b: byte, high: bool, last: int, before: int, sample: int)
    requires filter < 5
  {
    exists n, e, p ::
      InByte(b, high, n) && Expanded(n, shift, e) && Predicted(filter, last, before, p) && Nearest(e + p, sample)
  }

  lemma RoundedDown(n: int, shift: nat, e: int)
    ensures Expanded(n, shift, e) <==> e == n * 4096 / Pow2(shift)
  {
    var m, q := Pow2(shift), n * 4096 / Pow2(shift);
    hide Pow2;
    assert q * m <= n * 4096 < q * m + m;
    assert (e + 1) * m == e * m + m && (q + 1) * m == q * m + m;
    if e < q {
      MulMono(0, q - e - 1, m);
      assert (q - e - 1) * m == q * m - e * m - m;
    } else if e > q {
      MulMono(0, e - q - 1, m);
      assert (e - q - 1) * m == e * m - q * m - m;
    }
  }

  lemma PredictedIs(filter: nat, h: History, p: int)
    requires filter < 5
    ensures Predicted(filter, h.last, h.before, p) <==> p == Predict(filter, h)
  {
  }

  lemma NearestIs(x: int, sample: int)
    ensures Nearest(x, sample) <==> sample == Saturate(x)
  {
    if Nearest(x, sample) {
      assert Distance(x, sample) <= Distance(x, Saturate(x));
    }
  }

  /** The relation holds of one sample only: the one that the decoder computes. */
  lemma SampleIs(filter: nat, shift: nat, data: seq<byte>, i: nat, h: History, sample: int)
    requires filter < 5 && i / 2 < |data|
    ensures IsSample(filter, shift, data[i / 2], i % 2 == 1, h.last, h.before, sample) <==>
      sample == DecodeSample(filter, shift, NibbleAt(data, i), h)
  {
    hide Pow2, Saturate, Predict, Expanded, Predicted, Nearest;
    var b, high, k := data[i / 2], i % 2 == 1, NibbleAt(data, i);
    var n: int := k;
    n := if k >= 8 then n - 16 else n;
    var e, p := Expand(k, shift), Predict(filter, h);
    assert forall m :: InByte(b, high, m) <==> m == n;
    hide InByte;
    RoundedDown(n, shift, e);
    PredictedIs(filter, h, p);
    NearestIs(e + p, sample);
    if IsSample(filter, shift, b, high, h.last, h.before, sample) {
      var n', e', p' :| InByte(b, high, n') && Expanded(n', shift, e') && Predicted(filter, h.last, h.before, p') &&
        Nearest(e' + p', sample);
      RoundedDown(n', shift, e');
      PredictedIs(filter, h, p');
    }
  }

  /** Sample k of a stream that starts with a history: sample -1 is its last one, sample -2 the one before. */
  function Earlier(h: History, samples: seq<int>, k: int): int
    requires -2 <= k < |samples|
  {
    if k >= 0 then samples[k] else if k == -1 then h.last else h.before
  }

  lemma {:induction false} SamplesFrom(filter: nat, shift: nat, data: seq<byte>, i: nat, h: History, k: nat)
    requires filter < 5 && |data| == 14 && i + k < SAMPLES
    ensures
      var s := DecodeFrom(filter, shift, data, i, h);
      IsSample(filter, shift, data[(i + k) / 2], (i + k) % 2 == 1, Earlier(h, s, k - 1), Earlier(h, s, k - 2), s[k])
    decreases k
  {
    hide IsSample, DecodeSample, NibbleAt;
    var sample := DecodeSample(filter, shift, NibbleAt(data, i), h);
    var s := DecodeFrom(filter, shift, data, i, h);
    var rest := DecodeFrom(filter, shift, data, i + 1, Push(h, sample));
    assert s == [sample] + rest;
    if k == 0 {
      SampleIs(filter, shift, data, i, h, sample);
    } else {
      SamplesFrom(filter, shift, data, i + 1, Push(h, sample), k - 1);
      assert s[k] == rest[k - 1];
      assert Earlier(h, s, k - 1) == Earlier(Push(h, sample), rest, k - 2);
      assert Earlier(h, s, k - 2) == Earlier(Push(h, sample), rest, k - 3);
    }
  }

  /** Every sample of a block, from the byte of the header, the byte that holds it and the two samples before. */
  lemma BlockSamples(block: seq<byte>, h: History, k: nat)
    requires |block| == 16 && block[0] / 16 < 5 && k < 28
    ensures
      var s := DecodeBlock(block, h);
      IsSample(block[0] / 16, block[0] % 16, block[2 + k / 2], k % 2 == 1, Earlier(h, s, k - 1), Earlier(h, s, k - 2), s[k])
  {
    hide IsSample, DecodeFrom;
    SamplesFrom(block[0] / 16, block[0] % 16, block[2..], 0, h, k);
    assert block[2..][k / 2] == block[2 + k / 2];
  }

  /** Sample j of a stream of blocks, each 16 bytes and 28 samples long. */
  ghost predicate SampleOfStream(bytes: seq<byte>, h: History, samples: seq<int>, j: nat)
    requires j < |samples| && 16 * (j / 28) + 16 <= |bytes|
  {
    var at := 16 * (j / 28);
    && bytes[at] / 16 < 5
    && IsSample(bytes[at] / 16, bytes[at] % 16, bytes[at + 2 + j % 28 / 2], j % 2 == 1,
                Earlier(h, samples, j - 1), Earlier(h, samples, j - 2), samples[j])
  }

  lemma HistoryOf(h: History, samples: seq<int>)
    requires |samples| >= 2
    ensures HistoryAfter(h, samples) == History(samples[|samples| - 1], samples[|samples| - 2])
  {
    var n := |samples|;
    var init := samples[..n - 2];
    assert samples == init + [samples[n - 2]] + [samples[n - 1]];
    HistoryAppend(h, init + [samples[n - 2]], [samples[n - 1]]);
    HistoryAppend(h, init, [samples[n - 2]]);
    HistoryAfterFew(HistoryAfter(h, init), samples[n - 2]);
    HistoryAfterFew(HistoryAfter(h, init + [samples[n - 2]]), samples[n - 1]);
  }

  lemma {:induction false} StreamLength(bytes: seq<byte>, h: History)
    requires |bytes| % 16 == 0 && DecodeBlocks(bytes, h).Some?
    ensures |DecodeBlocks(bytes, h).value| == |bytes| / 16 * 28
    decreases |bytes|
  {
    hide DecodeBlock;
    if bytes != [] {
      assert |bytes[BLOCK..]| % 16 == 0 by { assert (|bytes| - 16) % 16 == 0; }
      StreamLength(bytes[BLOCK..], HistoryAfter(h, DecodeBlock(bytes[..BLOCK], h)));
    }
  }

  lemma NextBlock(j: nat)
    requires j >= 28
    ensures j / 28 == (j - 28) / 28 + 1 && j % 28 == (j - 28) % 28 && j % 2 == (j - 28) % 2
  {
  }

  lemma FirstBlock(bytes: seq<byte>, h: History, first: seq<int>, rest: seq<int>, j: nat)
    requires |bytes| >= 16 && j < |first| == 28 && SampleOfStream(bytes[..16], h, first, j)
    ensures j / 28 == 0 && SampleOfStream(bytes, h, first + rest, j)
  {
    hide IsSample, Earlier;
    EarlierFirst(h, first, rest, j - 1);
    EarlierFirst(h, first, rest, j - 2);
  }

  lemma EarlierFirst(h: History, first: seq<int>, rest: seq<int>, k: int)
    requires -2 <= k < |first|
    ensures Earlier(h, first + rest, k) == Earlier(h, first, k)
  {
  }

  lemma EarlierLater(h: History, first: seq<int>, rest: seq<int>, k: int)
    requires |first| >= 2 && |first| - 2 <= k < |first| + |rest|
    ensures Earlier(h, first + rest, k) ==
      Earlier(History(first[|first| - 1], first[|first| - 2]), rest, k - |first|)
  {
  }

  lemma {:induction false} StreamSamples(bytes: seq<byte>, h: History, j: nat)
    requires |bytes| % 16 == 0 && DecodeBlocks(bytes, h).Some? && j < |DecodeBlocks(bytes, h).value|
    ensures 16 * (j / 28) + 16 <= |bytes| && SampleOfStream(bytes, h, DecodeBlocks(bytes, h).value, j)
    decreases |bytes|
  {
    hide IsSample, DecodeBlock;
    StreamLength(bytes, h);
    assert |bytes[BLOCK..]| % 16 == 0 by { assert (|bytes| - 16) % 16 == 0; }
    var first := DecodeBlock(bytes[..BLOCK], h);
    var next := HistoryAfter(h, first);
    var rest := DecodeBlocks(bytes[BLOCK..], next).value;
    var samples := DecodeBlocks(bytes, h).value;
    assert samples == first + rest;
    if j < 28 {
      BlockSamples(bytes[..16], h, j);
      FirstBlock(bytes, h, first, rest, j);
    } else {
      StreamSamples(bytes[BLOCK..], next, j - 28);
      NextBlock(j);
      HistoryOf(h, first);
      LaterBlock(bytes, h, first, rest, j);
    }
  }

  lemma LaterBlock(bytes: seq<byte>, h: History, first: seq<int>, rest: seq<int>, j: nat)
    requires |bytes| >= 16 && |first| == 28 && 28 <= j < 28 + |rest| && 16 * ((j - 28) / 28) + 32 <= |bytes|
    requires SampleOfStream(bytes[16..], History(first[27], first[26]), rest, j - 28)
    ensures 16 * (j / 28) + 16 <= |bytes| && SampleOfStream(bytes, h, first + rest, j)
  {
    hide IsSample, Earlier;
    NextBlock(j);
    var at := 16 * ((j - 28) / 28);
    assert bytes[16..][at] == bytes[at + 16];
    assert bytes[16..][at + 2 + j % 28 / 2] == bytes[at + 16 + 2 + j % 28 / 2];
    EarlierLater(h, first, rest, j - 1);
    EarlierLater(h, first, rest, j - 2);
  }

  /** Every sample of a mono file: 48 bytes of header, then blocks; the history starts silent and runs through
      all blocks. */
  lemma MonoSamples(data: seq<byte>, seek: nat, version: nat, j: nat)
    requires seek <= |data| && Decode(data, seek, false, version).Decoded?
    requires j < |Decode(data, seek, false, version).left|
    ensures seek + 48 + 16 * (j / 28) + 16 <= |data|
    ensures SampleOfStream(data[seek + 48..], History(0, 0), Decode(data, seek, false, version).left, j)
  {
    hide SampleOfStream, DecodeBlocks, Walk;
    MonoIsBlocks(data, seek, version);
    var bytes := data[seek..][HEADER..];
    assert bytes == data[seek + 48..];
    assert Whole(bytes) == bytes;
    assert [] + DecodeBlocks(bytes, SILENCE).value == DecodeBlocks(bytes, SILENCE).value;
    StreamSamples(bytes, SILENCE, j);
  }

  /** How many samples there are. */
  lemma MonoLength(data: seq<byte>, seek: nat, version: nat)
    requires seek <= |data| && Decode(data, seek, false, version).Decoded?
    ensures |data| >= seek + 48 && (|data| - seek - 48) % 16 == 0
    ensures |Decode(data, seek, false, version).left| == (|data| - seek - 48) / 16 * 28
  {
    hide DecodeBlocks, Walk;
    MonoIsBlocks(data, seek, version);
    var bytes := data[seek..][HEADER..];
    assert Whole(bytes) == bytes;
    StreamLength(bytes, SILENCE);
  }

  /** A residual is the sample less its prediction from the two samples before it. */
  lemma {:induction false} ResidualAt(filter: nat, samples: seq<int>, h: History, k: nat)
    requires filter < 5 && k < |samples|
    ensures Predicted(filter, Earlier(h, samples, k - 1), Earlier(h, samples, k - 2),
                      samples[k] - Residuals(filter, samples, h)[k])
    decreases k
  {
    hide Predicted;
    if k == 0 {
      PredictedIs(filter, h, Predict(filter, h));
    } else {
      ResidualAt(filter, samples[1..], Push(h, samples[0]), k - 1);
      assert Earlier(h, samples, k - 2) == Earlier(Push(h, samples[0]), samples[1..], k - 3);
    }
  }
}
