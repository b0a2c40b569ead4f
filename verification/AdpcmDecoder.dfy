/** decode_adpcm: 16-byte blocks, each a shift/filter byte, a flags byte and 28 four-bit samples, with
    the two channels of a stereo file stored in alternating chunks. */
module AdpcmDecoder {
  import opened Arith

  type byte = x: int | 0 <= x < 256

  const F1: seq<int> := [0, 60, 115, 98, 122]
  const F2: seq<int> := [0, 0, -52, -55, -60]
  const HEADER: nat := 48
  const BLOCK: nat := 16
  const SAMPLES: nat := 28

  /** The last sample and the one before it. */
  datatype History = History(last: int, before: int)

  const SILENCE := History(0, 0)

  /** C++ division by 64: towards zero. */
  function Div64(n: int): (q: int)
    ensures n >= 0 ==> 64 * q <= n < 64 * q + 64
    ensures n < 0 ==> 64 * q - 64 < n <= 64 * q
  {
    if n >= 0 then n / 64 else -(-n / 64)
  }

  function Predict(filter: nat, h: History): int
    requires filter < 5
  {
    Div64(h.last * F1[filter] + h.before * F2[filter] + 32)
  }

  function Push(h: History, sample: int): History {
    History(sample, h.last)
  }

  predicate IsS16(x: int) {
    -0x8000 <= x <= 0x7fff
  }

  predicate AllS16(samples: seq<int>) {
    forall i :: 0 <= i < |samples| ==> IsS16(samples[i])
  }

  /** The 16-bit number closest to x. */
  function Saturate(x: int): (r: int)
    ensures IsS16(r)
    ensures forall y :: IsS16(y) ==> (if x < r then r - x else x - r) <= (if x < y then y - x else x - y)
  {
    if x > 0x7fff then 0x7fff else if x < -0x8000 then -0x8000 else x
  }

  // One block

  /** Nibble i of the 14 data bytes: the low half of a byte comes first. */
  function NibbleAt(data: seq<byte>, i: nat): nat
    requires i / 2 < |data|
  {
    if i % 2 == 0 then data[i / 2] % 16 else data[i / 2] / 16
  }

  /** The nibble in the top four bits of a 16-bit word, shifted down arithmetically. */
  function Expand(nibble: nat, shift: nat): int {
    (if nibble >= 8 then nibble - 16 else nibble) * 4096 / Pow2(shift)
  }

  function DecodeSample(filter: nat, shift: nat, nibble: nat, h: History): int
    requires filter < 5
  {
    Saturate(Expand(nibble, shift) + Predict(filter, h))
  }

  /** The samples of nibbles i.. of a block. */
  function DecodeFrom(filter: nat, shift: nat, data: seq<byte>, i: nat, h: History): (samples: seq<int>)
    requires filter < 5 && |data| == 14 && i <= SAMPLES
    ensures |samples| == SAMPLES - i
    decreases SAMPLES - i
  {
    if i == SAMPLES then []
    else
      var sample := DecodeSample(filter, shift, NibbleAt(data, i), h);
      [sample] + DecodeFrom(filter, shift, data, i + 1, Push(h, sample))
  }

  function HistoryAfter(h: History, samples: seq<int>): History
    decreases |samples|
  {
    if samples == [] then h else HistoryAfter(Push(h, samples[0]), samples[1..])
  }

  function DecodeBlock(block: seq<byte>, h: History): (samples: seq<int>)
    requires |block| == BLOCK && block[0] / 16 < 5
    ensures |samples| == SAMPLES
  {
    DecodeFrom(block[0] / 16, block[0] % 16, block[2..], 0, h)
  }

  // A stream of whole blocks

  datatype Option<+T> = None | Some(value: T)

  /** The samples of a stream of blocks; None if a header asks for a filter the table lacks. */
  function DecodeBlocks(bytes: seq<byte>, h: History): Option<seq<int>>
    requires |bytes| % 16 == 0
    decreases |bytes|
  {
    if bytes == [] then Some([])
    else if bytes[0] / 16 >= 5 then None
    else
      assert |bytes[BLOCK..]| % 16 == 0 by { assert (|bytes| - 16) % 16 == 0; }
      var samples := DecodeBlock(bytes[..BLOCK], h);
      match DecodeBlocks(bytes[BLOCK..], HistoryAfter(h, samples))
      case None => None
      case Some(rest) => Some(samples + rest)
  }

  // The whole file

  /** Decoded, or the assertion inside BinaryReader fails, or the code indexes past its tables. */
  datatype Outcome = Decoded(left: seq<int>, right: seq<int>) | AssertFails | OutOfTable

  datatype Channel = Channel(h: History, out: seq<int>)

  datatype Position = Position(seek: nat, bytesRead: nat, processingLeft: bool, firstRight: bool)

  function ChunkSize(version: nat): nat {
    if version == 3 then 0x1000 else 0x2000
  }

  function AddBlock(c: Channel, samples: seq<int>): Channel {
    Channel(HistoryAfter(c.h, samples), c.out + samples)
  }

  /** The start of the loop body: switching channels at the end of a chunk, and stepping over the
      right channel's header the first time. */
  function Switch(p: Position, stereo: bool, version: nat): Position {
    if stereo && p.bytesRead == ChunkSize(version)
    then Position(if p.firstRight then p.seek + HEADER else p.seek,
                  if p.firstRight then HEADER else 0, !p.processingLeft, false)
    else p
  }

  function Walk(data: seq<byte>, stereo: bool, version: nat, p: Position, left: Channel, right: Channel): Outcome
    requires p.seek <= |data|
    decreases |data| - p.seek, 1
  {
    if p.seek == |data| then Decoded(left.out, right.out) else Turn(data, stereo, version, p, left, right)
  }

  /** One turn of the loop, and the turns after it. */
  function Turn(data: seq<byte>, stereo: bool, version: nat, p: Position, left: Channel, right: Channel): Outcome
    requires p.seek < |data|
    decreases |data| - p.seek, 0
  {
    var at := Switch(p, stereo, version);
    if at.seek + BLOCK > |data| then AssertFails
    else
      var block := data[at.seek..at.seek + BLOCK];
      if block[0] / 16 >= 5 then OutOfTable
      else
        var next := at.(seek := at.seek + BLOCK, bytesRead := at.bytesRead + BLOCK);
        if !stereo || at.processingLeft
        then Walk(data, stereo, version, next, AddBlock(left, DecodeBlock(block, left.h)), right)
        else Walk(data, stereo, version, next, left, AddBlock(right, DecodeBlock(block, right.h)))
  }

  function Decode(data: seq<byte>, seek: nat, stereo: bool, version: nat): Outcome {
    if seek + HEADER > |data| then AssertFails
    else Walk(data, stereo, version, Position(seek + HEADER, seek + HEADER, true, true),
              Channel(SILENCE, []), Channel(SILENCE, []))
  }

  // The decoder

  class BinaryReader {
    const span: seq<byte>
    var seek: nat

    constructor (span: seq<byte>)
      ensures this.span == span && seek == 0
    {
      this.span := span;
      seek := 0;
    }

    /** read<u8>: ok is false where the assertion fails. */
    method ReadByte() returns (ok: bool, value: byte)
      modifies this
      ensures ok <==> old(seek) < |span|
      ensures ok ==> value == span[old(seek)] && seek == old(seek) + 1
    {
      ok, value := seek < |span|, 0;
      if ok {
        value := span[seek];
        seek := seek + 1;
      }
    }

    method FastForward(amount: nat) returns (ok: bool)
      modifies this
      ensures seek == old(seek) + amount && (ok <==> seek <= |span|)
    {
      seek := seek + amount;
      ok := seek <= |span|;
    }

    /** Reads count bytes one after the other. */
    method ReadBytes(count: nat) returns (ok: bool, bytes: seq<byte>)
      requires seek <= |span|
      modifies this
      ensures ok <==> old(seek) + count <= |span|
      ensures ok ==> bytes == span[old(seek)..old(seek) + count] && seek == old(seek) + count
    {
      bytes := [];
      for i := 0 to count
        invariant seek == old(seek) + i <= |span|
        invariant bytes == span[old(seek)..seek]
      {
        var value;
        ok, value := ReadByte();
        if !ok {
          return;
        }
        bytes := bytes + [value];
      }
      ok := true;
    }
  }

  /** The history and the output of one channel, updated in place. */
  class ChannelState {
    var last: int
    var before: int
    var samples: seq<int>

    function View(): Channel
      reads this
    {
      Channel(History(last, before), samples)
    }

    constructor ()
      ensures View() == Channel(SILENCE, [])
    {
      last, before, samples := 0, 0, [];
    }

    method DecodeSamples(filter: nat, shift: nat, data: seq<byte>)
      requires filter < 5 && |data| == 14
      modifies this
      ensures View() == AddBlock(old(View()), DecodeFrom(filter, shift, data, 0, old(View().h)))
    {
      hide DecodeFrom, DecodeSample, Expand, Predict, HistoryAfter;
      ghost var h, out := View().h, samples;
      ghost var decoded := [];
      HistoryAfterFew(h, 0);
      for i := 0 to SAMPLES
        invariant samples == out + decoded && View().h == HistoryAfter(h, decoded)
        invariant decoded + DecodeFrom(filter, shift, data, i, View().h) == DecodeFrom(filter, shift, data, 0, h)
      {
        var nibble: int := data[i / 2];
        if i % 2 == 0 {
          nibble := nibble % 16;
        } else {
          nibble := nibble / 16;
        }
        var sample := Expand(nibble, shift);
        sample := sample + Predict(filter, History(last, before));
        if sample > 0x7fff {
          sample := 0x7fff;
        }
        if sample < -0x8000 {
          sample := -0x8000;
        }
        DecodeFromStep(filter, shift, data, i, View().h, sample);
        HistoryAppend(h, decoded, [sample]);
        HistoryAfterFew(View().h, sample);
        assert decoded + ([sample] + DecodeFrom(filter, shift, data, i + 1, Push(View().h, sample))) ==
          (decoded + [sample]) + DecodeFrom(filter, shift, data, i + 1, Push(View().h, sample));
        decoded := decoded + [sample];
        before := last;
        last := sample;
        samples := samples + [sample];
      }
      assert decoded + DecodeFrom(filter, shift, data, SAMPLES, View().h) == decoded;
    }
  }

  lemma HistoryAfterFew(h: History, sample: int)
    ensures HistoryAfter(h, []) == h && HistoryAfter(h, [sample]) == Push(h, sample)
  {
  }

  lemma DecodeFromStep(filter: nat, shift: nat, data: seq<byte>, i: nat, h: History, sample: int)
    requires filter < 5 && |data| == 14 && i < SAMPLES
    requires sample == Saturate(Expand(NibbleAt(data, i), shift) + Predict(filter, h))
    ensures DecodeFrom(filter, shift, data, i, h) == [sample] + DecodeFrom(filter, shift, data, i + 1, Push(h, sample))
  {
    hide Expand, Predict;
  }

  lemma {:induction false} HistoryAppend(h: History, a: seq<int>, b: seq<int>)
    ensures HistoryAfter(h, a + b) == HistoryAfter(HistoryAfter(h, a), b)
    decreases |a|
  {
    if a == [] {
      assert a + b == b;
    } else {
      assert (a + b)[1..] == a[1..] + b;
      HistoryAppend(Push(h, a[0]), a[1..], b);
    }
  }

  method DecodeAdpcm(reader: BinaryReader, stereo: bool, version: nat) returns (outcome: Outcome)
    modifies reader
    ensures outcome == Decode(reader.span, old(reader.seek), stereo, version)
  {
    hide DecodeFrom, AddBlock;
    ghost var data, start := reader.span, reader.seek;
    var left := new ChannelState();
    var right := new ChannelState();
    var bytesRead: nat := reader.seek;
    var processingLeft, firstRight := true, true;
    var ok := reader.FastForward(HEADER);
    if !ok {
      return AssertFails;
    }
    bytesRead := bytesRead + HEADER;
    while reader.seek < |reader.span|
      invariant reader.seek <= |data| && reader.span == data && left != right
      invariant fresh(left) && fresh(right)
      invariant Decode(data, start, stereo, version) ==
        Walk(data, stereo, version, Position(reader.seek, bytesRead, processingLeft, firstRight), left.View(), right.View())
      decreases |data| - reader.seek
    {
      if stereo && bytesRead == ChunkSize(version) {
        processingLeft := !processingLeft;
        bytesRead := 0;
        if firstRight {
          ok := reader.FastForward(HEADER);
          if !ok {
            return AssertFails;
          }
          bytesRead := bytesRead + HEADER;
          firstRight := false;
        }
      }
      var block;
      ok, block := reader.ReadBytes(BLOCK);
      if !ok {
        return AssertFails;
      }
      var shift, filter := block[0] % 16, block[0] / 16;
      if filter >= 5 {
        return OutOfTable;
      }
      if !stereo || processingLeft {
        left.DecodeSamples(filter, shift, block[2..]);
      } else {
        right.DecodeSamples(filter, shift, block[2..]);
      }
      bytesRead := bytesRead + 16;
    }
    outcome := Decoded(left.samples, right.samples);
  }
}
