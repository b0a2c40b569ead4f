/** The encoder's analysis and the decoder undo each other: blocks of zero shift error decode to the samples
    they came from. */
module AdpcmRoundTrip {
  import opened Arith
  import opened AdpcmDecoder
  import opened AdpcmStreams
  import opened AdpcmEncoder

  // One block

  function Unsigned4(nibble: int): nat {
    nibble % 16
  }

  function PackNibbles(rs: seq<int>, shift: Shift): (data: seq<byte>)
    requires |rs| == SAMPLES
    ensures |data| == 14
  {
    seq(14, i requires 0 <= i < 14 =>
      var b: byte := Unsigned4(Nibble(rs[2 * i], shift)) + 16 * Unsigned4(Nibble(rs[2 * i + 1], shift)); b)
  }

  /** A block as the decoder reads it. */
  function Pack(filter: nat, shift: Shift, flags: byte, rs: seq<int>): (block: seq<byte>)
    requires filter < 5 && shift >= 0 && |rs| == SAMPLES
    ensures |block| == BLOCK
  {
    var header: byte := filter * 16 + shift;
    [header, flags] + PackNibbles(rs, shift)
  }

  lemma NibbleOfPack(rs: seq<int>, shift: Shift, i: nat)
    requires |rs| == SAMPLES && i < SAMPLES
    ensures NibbleAt(PackNibbles(rs, shift), i) == Unsigned4(Nibble(rs[i], shift))
  {
    hide Nibble;
  }

  /** The decoder expands the encoder's nibble to what the encoder compares with the residual. */
  lemma ExpandsNibble(r: int, shift: Shift)
    requires shift >= 0
    ensures Expand(Unsigned4(Nibble(r, shift)), shift) == Nibble(r, shift) * Unit(shift)
  {
    hide Pow2, Nibble;
    NibbleIs(r, shift);
    var n, u, m := Nibble(r, shift), Unit(shift), Pow2(shift);
    var k: int := Unsigned4(n);
    assert (if k >= 8 then k - 16 else k) == n;
    Pow2Add(12 - shift, shift);
    Pow2Of12();
    assert n * 4096 == (n * u) * m;
    DivideBack(n * 4096, n * u, m);
  }

  lemma Pow2Of12()
    ensures Pow2(12) == 4096
  {
    assert Pow2(6) == 64;
    Pow2Add(6, 6);
  }

  /** A sample comes back exactly when it has no error, or when saturation hides the error. */
  lemma SampleIff(filter: nat, shift: Shift, sample: int, h: History)
    requires filter < 5 && shift >= 0 && IsS16(sample)
    ensures
      var r := sample - Predict(filter, h);
      var nibble := Unsigned4(Nibble(r, shift));
      DecodeSample(filter, shift, nibble, h) == sample <==>
        || Err(r, shift) == 0
        || (sample == 0x7fff && Nibble(r, shift) * Unit(shift) > r)
        || (sample == -0x8000 && Nibble(r, shift) * Unit(shift) < r)
  {
    hide Expand, Predict, Nibble, Unit, Unsigned4;
    ExpandsNibble(sample - Predict(filter, h), shift);
  }

  /** One sample comes back, and without the help of saturation. */
  lemma SampleRoundTrip(filter: nat, shift: Shift, sample: int, h: History)
    requires filter < 5 && shift >= 0 && IsS16(sample) && Err(sample - Predict(filter, h), shift) == 0
    ensures
      var nibble := Unsigned4(Nibble(sample - Predict(filter, h), shift));
      Expand(nibble, shift) + Predict(filter, h) == sample && DecodeSample(filter, shift, nibble, h) == sample
  {
    hide Expand, Predict, Nibble, Unit, Unsigned4;
    ExpandsNibble(sample - Predict(filter, h), shift);
  }

  lemma {:induction false} DecodesFrom(filter: nat, shift: Shift, data: seq<byte>, i: nat, samples: seq<int>, h: History)
    requires filter < 5 && shift >= 0 && |data| == 14 && i + |samples| == SAMPLES && AllS16(samples)
    requires ShiftError(Residuals(filter, samples, h), shift) == 0
    requires forall j :: 0 <= j < |samples| ==>
      NibbleAt(data, i + j) == Unsigned4(Nibble(Residuals(filter, samples, h)[j], shift))
    ensures DecodeFrom(filter, shift, data, i, h) == samples
    decreases |samples|
  {
    hide Expand, Predict, Nibble, Err, DecodeSample, NibbleAt, Unsigned4;
    if samples != [] {
      var rest, next := samples[1..], Push(h, samples[0]);
      var rs, later := Residuals(filter, samples, h), Residuals(filter, rest, next);
      assert rs == [samples[0] - Predict(filter, h)] + later;
      assert rs[1..] == later;
      SampleRoundTrip(filter, shift, samples[0], h);
      assert NibbleAt(data, i + 0) == Unsigned4(Nibble(rs[0], shift));
      forall j | 0 <= j < |rest| ensures NibbleAt(data, i + 1 + j) == Unsigned4(Nibble(later[j], shift)) {
        assert later[j] == rs[j + 1];
        assert NibbleAt(data, i + (j + 1)) == Unsigned4(Nibble(rs[j + 1], shift));
      }
      DecodesFrom(filter, shift, data, i + 1, rest, next);
      assert samples == [samples[0]] + rest;
    }
  }

  /** A block of no error decodes to its samples. */
  lemma BlockRoundTrip(filter: nat, shift: Shift, flags: byte, samples: seq<int>, h: History)
    requires filter < 5 && shift >= 0 && |samples| == SAMPLES && AllS16(samples)
    requires ShiftError(Residuals(filter, samples, h), shift) == 0
    ensures
      var block := Pack(filter, shift, flags, Residuals(filter, samples, h));
      block[0] / 16 == filter && DecodeBlock(block, h) == samples
  {
    hide PackNibbles, DecodeFrom, ShiftError, Residuals, Nibble, NibbleAt, Unsigned4;
    var rs := Residuals(filter, samples, h);
    var block := Pack(filter, shift, flags, rs);
    assert block[2..] == PackNibbles(rs, shift);
    forall j | 0 <= j < |samples| ensures NibbleAt(block[2..], 0 + j) == Unsigned4(Nibble(rs[j], shift)) {
      NibbleOfPack(rs, shift, j);
    }
    DecodesFrom(filter, shift, block[2..], 0, samples, h);
  }

  // A stream

  /** Every block has no error at its recorded filter and shift. */
  predicate Exact(samples: seq<int>, filters: seq<byte>, shifts: seq<byte>) {
    && |samples| % 28 == 0 && |samples| / 28 <= |filters| && |samples| / 28 <= |shifts|
    && forall b: nat :: b < |samples| / 28 ==> ExactAt(samples, filters[b], shifts[b], b)
  }

  predicate ExactAt(samples: seq<int>, filter: nat, shift: nat, b: nat)
    requires 28 * b + 28 <= |samples|
  {
    filter < 5 && shift <= 12 && ShiftError(Residuals(filter, BlockOf(samples, b), HistoryAt(samples, b)), shift) == 0
  }

  /** The blocks from b on. */
  function PackFrom(samples: seq<int>, filters: seq<byte>, shifts: seq<byte>, flags: byte, b: nat): (bytes: seq<byte>)
    requires Exact(samples, filters, shifts) && b <= |samples| / 28
    ensures |bytes| % 16 == 0
    decreases |samples| / 28 - b
  {
    if b == |samples| / 28 then []
    else
      assert ExactAt(samples, filters[b], shifts[b], b);
      var rest := PackFrom(samples, filters, shifts, flags, b + 1);
      AddSixteen(|rest|);
      Pack(filters[b], shifts[b], flags, Residuals(filters[b], BlockOf(samples, b), HistoryAt(samples, b))) + rest
  }

  lemma {:induction false} HistoryAfterLast(h: History, samples: seq<int>)
    requires |samples| >= 2
    ensures HistoryAfter(h, samples) == History(samples[|samples| - 1], samples[|samples| - 2])
    decreases |samples|
  {
    if |samples| == 2 {
      assert HistoryAfter(h, samples) == HistoryAfter(Push(Push(h, samples[0]), samples[1]), samples[1..][1..]);
    } else {
      HistoryAfterLast(Push(h, samples[0]), samples[1..]);
    }
  }

  /** At a block boundary the decoder's history is the encoder's. */
  lemma HistoriesAgree(samples: seq<int>, b: nat)
    requires 28 * b + 28 <= |samples|
    ensures HistoryAfter(HistoryAt(samples, b), BlockOf(samples, b)) == HistoryAt(samples, b + 1)
  {
    HistoryAfterLast(HistoryAt(samples, b), BlockOf(samples, b));
  }

  lemma {:induction false} StreamRoundTrip(samples: seq<int>, filters: seq<byte>, shifts: seq<byte>, flags: byte, b: nat)
    requires AllS16(samples) && Exact(samples, filters, shifts) && b <= |samples| / 28
    ensures DecodeBlocks(PackFrom(samples, filters, shifts, flags, b), HistoryAt(samples, b)) == Some(samples[28 * b..])
    decreases |samples| / 28 - b
  {
    hide DecodeBlock, Pack, ShiftError, Residuals, HistoryAt, HistoryAfter;
    if b < |samples| / 28 {
      assert ExactAt(samples, filters[b], shifts[b], b);
      var block, h := BlockOf(samples, b), HistoryAt(samples, b);
      var packed := Pack(filters[b], shifts[b], flags, Residuals(filters[b], block, h));
      var rest := PackFrom(samples, filters, shifts, flags, b + 1);
      var bytes := packed + rest;
      assert bytes[..BLOCK] == packed && bytes[BLOCK..] == rest;
      BlockRoundTrip(filters[b], shifts[b], flags, block, h);
      HistoriesAgree(samples, b);
      StreamRoundTrip(samples, filters, shifts, flags, b + 1);
      assert samples[28 * b..] == block + samples[28 * (b + 1)..];
    } else {
      assert samples[28 * b..] == [];
    }
  }

  /** A whole mono file: any header, then the packed blocks. */
  lemma FileRoundTrip(header: seq<byte>, samples: seq<int>, filters: seq<byte>, shifts: seq<byte>, flags: byte, version: nat)
    requires |header| == HEADER && AllS16(samples) && Exact(samples, filters, shifts)
    ensures Decode(header + PackFrom(samples, filters, shifts, flags, 0), 0, false, version) == Decoded(samples, [])
  {
    hide Exact, PackFrom, DecodeBlocks;
    var bytes := PackFrom(samples, filters, shifts, flags, 0);
    var file := header + bytes;
    MonoIsBlocks(file, 0, version);
    StreamRoundTrip(samples, filters, shifts, flags, 0);
    assert file[0..] == file && file[HEADER..] == bytes && samples[0..] == samples;
    MonoWhole(bytes);
  }

  /** What passes the encoder's own check is exact, so it round trips. */
  lemma PassingIsExact(samples: seq<int>, filters: seq<byte>, shifts: seq<byte>)
    requires |samples| % 28 == 0 && |samples| / 28 <= |filters| && |samples| / 28 <= |shifts|
    requires forall b: nat :: b < |samples| / 28 ==>
      BlockPasses(BlockOf(samples, b), HistoryAt(samples, b), filters[b], shifts[b])
    ensures Exact(samples, filters, shifts)
  {
    hide IsBest;
    forall b: nat | b < |samples| / 28 ensures ExactAt(samples, filters[b], shifts[b], b) {
      assert BlockPasses(BlockOf(samples, b), HistoryAt(samples, b), filters[b], shifts[b]);
      PassingBlock(BlockOf(samples, b), HistoryAt(samples, b), filters[b], shifts[b]);
    }
  }

  lemma PassingBlock(block: seq<int>, h: History, filter: nat, shift: nat)
    requires BlockPasses(block, h, filter, shift)
    ensures filter < 5 && shift <= 12 && ShiftError(Residuals(filter, block, h), shift) == 0
  {
    hide FirstShift, Residuals, AllInRange, ShiftError;
    var rs := Residuals(filter, block, h);
    LoweredKeepsZero(rs, FirstShift(rs));
  }

  lemma {:induction false} LoweredKeepsZero(rs: seq<int>, s: Shift)
    requires ShiftError(rs, s) == 0
    ensures ShiftError(rs, Lowered(rs, s)) == 0
    decreases s + 16
  {
    hide ShiftError;
    if s >= 0 && ShiftError(rs, s - 1) == 0 {
      LoweredKeepsZero(rs, s - 1);
    }
  }

  function PackedFile(header: seq<byte>, samples: seq<int>, filters: seq<byte>, shifts: seq<byte>, flags: byte): seq<byte>
    requires Exact(samples, filters, shifts)
  {
    header + PackFrom(samples, filters, shifts, flags, 0)
  }

  lemma {:induction false} PackLength(samples: seq<int>, filters: seq<byte>, shifts: seq<byte>, flags: byte, b: nat)
    requires Exact(samples, filters, shifts) && b <= |samples| / 28
    ensures |PackFrom(samples, filters, shifts, flags, b)| == 16 * (|samples| / 28 - b)
    decreases |samples| / 28 - b
  {
    hide Pack, ExactAt;
    if b < |samples| / 28 {
      assert ExactAt(samples, filters[b], shifts[b], b);
      PackLength(samples, filters, shifts, flags, b + 1);
    }
  }

  /** Two packed files, put together chunk by chunk, decode to both channels. */
  lemma StereoRoundTrip(
      version: nat, chunk: nat, flags: byte, leftHeader: seq<byte>, rightHeader: seq<byte>,
      left: seq<int>, leftFilters: seq<byte>, leftShifts: seq<byte>,
      right: seq<int>, rightFilters: seq<byte>, rightShifts: seq<byte>)
    requires chunk == (if version == 3 then 4096 else 8192)
    requires |leftHeader| == HEADER == |rightHeader| && right != []
    requires AllS16(left) && Exact(left, leftFilters, leftShifts)
    requires AllS16(right) && Exact(right, rightFilters, rightShifts)
    requires Alternates(HEADER + 16 * (|left| / 28), HEADER + 16 * (|right| / 28), chunk)
    ensures
      var l := PackedFile(leftHeader, left, leftFilters, leftShifts, flags);
      var r := PackedFile(rightHeader, right, rightFilters, rightShifts, flags);
      && Alternates(|l|, |r|, chunk)
      && Decode(Interleave(l, r, chunk), 0, true, version) == Decoded(left, right)
  {
    hide PackedFile, PackFrom, Exact, Walk, Alternates, Interleave, Side, Decode;
    PackedSize(leftHeader, left, leftFilters, leftShifts, flags);
    PackedSize(rightHeader, right, rightFilters, rightShifts, flags);
    var l := PackedFile(leftHeader, left, leftFilters, leftShifts, flags);
    var r := PackedFile(rightHeader, right, rightFilters, rightShifts, flags);
    InterleavedDecode(l, r, version, chunk);
    PackedDecode(leftHeader, left, leftFilters, leftShifts, flags, version);
    PackedDecode(rightHeader, right, rightFilters, rightShifts, flags, version);
  }

  lemma PackedSize(header: seq<byte>, samples: seq<int>, filters: seq<byte>, shifts: seq<byte>, flags: byte)
    requires |header| == HEADER && Exact(samples, filters, shifts)
    ensures |PackedFile(header, samples, filters, shifts, flags)| == HEADER + 16 * (|samples| / 28)
    ensures |PackedFile(header, samples, filters, shifts, flags)| % 16 == 0
    ensures samples != [] ==> |PackedFile(header, samples, filters, shifts, flags)| >= HEADER + BLOCK
  {
    assert samples != [] ==> |samples| / 28 >= 1;
    PackLength(samples, filters, shifts, flags, 0);
    Sixteens(|samples| / 28 + 3);
    hide PackFrom, Exact;
  }

  lemma PackedDecode(
      header: seq<byte>, samples: seq<int>, filters: seq<byte>, shifts: seq<byte>, flags: byte, version: nat)
    requires |header| == HEADER && AllS16(samples) && Exact(samples, filters, shifts)
    ensures Decode(PackedFile(header, samples, filters, shifts, flags), 0, false, version) == Decoded(samples, [])
  {
    hide Exact, PackFrom, Decode;
    FileRoundTrip(header, samples, filters, shifts, flags, version);
  }

  // Which blocks can pass

  lemma {:induction false} BestExists(errors: seq<int>, shifts: seq<int>, n: nat) returns (best: nat)
    requires |errors| == |shifts| && 0 < n <= |errors|
    ensures best < n && forall j :: 0 <= j < n && j != best ==> Beats(errors, shifts, best, j)
  {
    best := 0;
    if n > 1 {
      var sofar := BestExists(errors, shifts, n - 1);
      best := if Beats(errors, shifts, n - 1, sofar) then n - 1 else sofar;
      forall j | 0 <= j < n && j != best ensures Beats(errors, shifts, best, j) {
        assert j == n - 1 || j == sofar || Beats(errors, shifts, sofar, j);
      }
    }
  }

  /** Some recorded bytes pass for a block exactly when some filter has no error, and every such filter has
      a residual that is not a multiple of 2^13 at a first shift of 0 or more. */
  lemma CanPass(block: seq<int>, h: History)
    requires Analysable(block, h)
    ensures (exists filter: byte, shift: byte :: BlockPasses(block, h, filter, shift)) <==>
      (exists f: nat :: f < 5 && Errors(block, h)[f] == 0) &&
      (forall f: nat :: f < 5 && Errors(block, h)[f] == 0 ==> Storable(Residuals(f, block, h)))
  {
    hide AllInRange, Residuals, FirstShift, IsBest, ShiftError, Storable;
    var errors, shifts := Errors(block, h), Shifts(block, h);
    forall f: nat | f < 5 && errors[f] == 0 ensures Storable(Residuals(f, block, h)) <==> shifts[f] >= 0 {
      StorableShift(Residuals(f, block, h));
    }
    var best := BestExists(errors, shifts, 5);
    IsBestOf(errors, shifts, best);
    if f: nat :| f < 5 && errors[f] == 0 && forall g: nat :: g < 5 && errors[g] == 0 ==> shifts[g] >= 0 {
      ZeroIsBest(errors, shifts, best, f);
      assert BlockPasses(block, h, best, shifts[best]);
    }
    if filter: byte, shift: byte :| BlockPasses(block, h, filter, shift) {
      PassingBlock(block, h, filter, shift);
      assert errors[filter] == 0;
      forall g: nat | g < 5 && errors[g] == 0 ensures shifts[g] >= 0 {
        BestIsLeast(errors, shifts, filter, g);
      }
    }
  }

  lemma IsBestOf(errors: seq<int>, shifts: seq<int>, best: nat)
    requires |errors| == |shifts| == 5 && best < 5
    requires forall j :: 0 <= j < 5 && j != best ==> Beats(errors, shifts, best, j)
    ensures IsBest(errors, shifts, best)
  {
  }

  lemma ZeroIsBest(errors: seq<int>, shifts: seq<int>, best: nat, f: nat)
    requires |errors| == |shifts| == 5 && f < 5 && errors[f] == 0 && (forall g: nat :: g < 5 ==> errors[g] >= 0)
    requires IsBest(errors, shifts, best)
    ensures errors[best] == 0
  {
    assert best == f || Beats(errors, shifts, best, f);
  }

  lemma BestIsLeast(errors: seq<int>, shifts: seq<int>, best: nat, g: nat)
    requires |errors| == |shifts| == 5 && IsBest(errors, shifts, best) && g < 5 && errors[best] == errors[g]
    ensures shifts[best] <= shifts[g]
  {
    assert best == g || Beats(errors, shifts, best, g);
  }

  predicate Storable(rs: seq<int>)
    requires AllInRange(rs, -16)
  {
    FirstShift(rs) >= 0 && !AllDivide(rs, -1)
  }

  lemma StorableShift(rs: seq<int>)
    requires AllInRange(rs, -16) && ChosenError(rs) == 0
    ensures Storable(rs) <==> ChosenShift(rs) >= 0
  {
    hide AllInRange, ShiftError, FirstShift;
    if FirstShift(rs) >= 0 {
      ChosenIsEncodable(rs);
    }
  }

  /** Silence has no error at any shift, but the search ends at shift -1, so no recorded bytes pass. */
  lemma SilenceCannotPass(filter: byte, shift: byte)
    ensures !BlockPasses(seq(SAMPLES, _ => 0), SILENCE, filter, shift)
  {
    var block := seq(SAMPLES, _ => 0);
    SilentResiduals(0, block);
    var rs := Residuals(0, block, SILENCE);
    hide Residuals, AllInRange, Err, IsBest, Storable;
    BlockAnalysable(block, SILENCE);
    SilentError(rs, FirstShift(rs));
    assert Errors(block, SILENCE)[0] == 0;
    NotStorable(rs);
    CanPass(block, SILENCE);
  }

  lemma NotStorable(rs: seq<int>)
    requires AllInRange(rs, -16) && forall i :: 0 <= i < |rs| ==> rs[i] == 0
    ensures !Storable(rs)
  {
  }

  lemma {:induction false} SilentResiduals(filter: nat, samples: seq<int>)
    requires filter < 5 && forall i :: 0 <= i < |samples| ==> samples[i] == 0
    ensures forall i :: 0 <= i < |samples| ==> Residuals(filter, samples, SILENCE)[i] == 0
    decreases |samples|
  {
    if samples != [] {
      SilentResiduals(filter, samples[1..]);
      assert Predict(filter, SILENCE) == 0;
    }
  }

  lemma {:induction false} SilentError(rs: seq<int>, s: Shift)
    requires forall i :: 0 <= i < |rs| ==> rs[i] == 0
    ensures ShiftError(rs, s) == 0
    decreases |rs|
  {
    if rs != [] {
      SilentError(rs[1..], s);
    }
  }
}
