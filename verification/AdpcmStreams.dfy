/** What decode_adpcm computes: a mono file is one stream of blocks after its header, and an aligned
    stereo file is two mono files interleaved by chunks. */
module AdpcmStreams {
  import opened Arith
  import opened AdpcmDecoder

  // Mono

  /** The mono decoder in closed form: the whole blocks after the header, an out-of-table filter first,
      then the failed read of a trailing partial block. */
  function MonoFile(bytes: seq<byte>): Outcome {
    if |bytes| < HEADER then AssertFails else MonoTail(bytes[HEADER..], Channel(SILENCE, []), Channel(SILENCE, []))
  }

  function Whole(bytes: seq<byte>): (whole: seq<byte>)
    ensures |whole| % 16 == 0 && |bytes| - 16 < |whole| <= |bytes|
  {
    bytes[..|bytes| / 16 * 16]
  }

  function MonoTail(bytes: seq<byte>, left: Channel, right: Channel): Outcome {
    match DecodeBlocks(Whole(bytes), left.h)
    case None => OutOfTable
    case Some(samples) => if |bytes| % 16 == 0 then Decoded(left.out + samples, right.out) else AssertFails
  }

  /** Taking one block off the front of a stream. */
  lemma MonoTailStep(bytes: seq<byte>, left: Channel, right: Channel)
    requires |bytes| >= BLOCK && bytes[0] / 16 < 5
    ensures MonoTail(bytes, left, right) ==
      MonoTail(bytes[BLOCK..], AddBlock(left, DecodeBlock(bytes[..BLOCK], left.h)), right)
  {
    hide DecodeBlock;
    var whole, rest := Whole(bytes), bytes[BLOCK..];
    assert whole[..BLOCK] == bytes[..BLOCK];
    assert |whole| == |Whole(rest)| + 16;
    assert whole[BLOCK..] == Whole(rest);
    var samples := DecodeBlock(bytes[..BLOCK], left.h);
    if t :| DecodeBlocks(Whole(rest), HistoryAfter(left.h, samples)) == Some(t) {
      assert left.out + (samples + t) == (left.out + samples) + t;
    }
  }

  lemma {:induction false} WalkMono(data: seq<byte>, version: nat, p: Position, left: Channel, right: Channel)
    requires p.seek <= |data|
    ensures Walk(data, false, version, p, left, right) == MonoTail(data[p.seek..], left, right)
    decreases |data| - p.seek
  {
    hide DecodeBlock;
    var bytes := data[p.seek..];
    if |bytes| == 0 {
      assert left.out + [] == left.out;
    } else if |bytes| < BLOCK {
      assert Whole(bytes) == [];
    } else if bytes[0] / 16 < 5 {
      var next := p.(seek := p.seek + BLOCK, bytesRead := p.bytesRead + BLOCK);
      assert bytes[..BLOCK] == data[p.seek..p.seek + BLOCK];
      assert bytes[BLOCK..] == data[next.seek..];
      MonoTailStep(bytes, left, right);
      WalkMono(data, version, next, AddBlock(left, DecodeBlock(bytes[..BLOCK], left.h)), right);
    }
  }

  /** For every input, aligned or not. */
  lemma MonoIsBlocks(data: seq<byte>, seek: nat, version: nat)
    requires seek <= |data|
    ensures Decode(data, seek, false, version) == MonoFile(data[seek..])
  {
    if seek + HEADER <= |data| {
      var p := Position(seek + HEADER, seek + HEADER, true, true);
      WalkMono(data, version, p, Channel(SILENCE, []), Channel(SILENCE, []));
      assert data[seek..][HEADER..] == data[p.seek..];
    }
  }

  // The chunks of each channel

  /** The bytes of data from offset o on whose chunk has the given parity. */
  function Side(data: seq<byte>, o: nat, chunk: nat, parity: nat): seq<byte>
    requires o <= |data| && chunk > 0
    decreases |data| - o
  {
    if o == |data| then []
    else (if (o / chunk) % 2 == parity then [data[o]] else []) + Side(data, o + 1, chunk, parity)
  }

  /** A run of bytes inside chunk k goes to one side as a whole. */
  lemma {:induction false} SideRun(data: seq<byte>, o: nat, n: nat, chunk: nat, k: nat, parity: nat)
    requires chunk > 0 && o + n <= |data| && k * chunk <= o && o + n <= k * chunk + chunk
    ensures Side(data, o, chunk, parity) ==
      (if k % 2 == parity then data[o..o + n] else []) + Side(data, o + n, chunk, parity)
    decreases n
  {
    if n > 0 {
      DivModUnique(o, k, o - k * chunk, chunk);
      SideRun(data, o + 1, n - 1, chunk, k, parity);
      assert data[o..o + n] == [data[o]] + data[o + 1..o + 1 + (n - 1)];
    } else {
      assert data[o..o] == [];
    }
  }

  lemma {:induction false} SamplesAreS16(filter: nat, shift: nat, data: seq<byte>, i: nat, h: History)
    requires filter < 5 && |data| == 14 && i <= SAMPLES
    ensures AllS16(DecodeFrom(filter, shift, data, i, h))
    decreases SAMPLES - i
  {
    hide Expand, Predict, NibbleAt;
    if i < SAMPLES {
      var sample := DecodeSample(filter, shift, NibbleAt(data, i), h);
      SamplesAreS16(filter, shift, data, i + 1, Push(h, sample));
    }
  }

  lemma {:induction false} BlocksAreS16(bytes: seq<byte>, h: History)
    requires |bytes| % 16 == 0
    ensures DecodeBlocks(bytes, h).Some? ==> AllS16(DecodeBlocks(bytes, h).value)
    decreases |bytes|
  {
    hide DecodeFrom;
    if bytes != [] && bytes[0] / 16 < 5 {
      assert |bytes[BLOCK..]| % 16 == 0 by { assert (|bytes| - 16) % 16 == 0; }
      var samples := DecodeBlock(bytes[..BLOCK], h);
      SamplesAreS16(bytes[0] / 16, bytes[0] % 16, bytes[..BLOCK][2..], 0, h);
      BlocksAreS16(bytes[BLOCK..], HistoryAfter(h, samples));
    }
  }

  /** Every sample that a mono file decodes to is a 16-bit number. */
  lemma MonoIsS16(data: seq<byte>, seek: nat, version: nat)
    requires seek <= |data|
    ensures Decode(data, seek, false, version).Decoded? ==> AllS16(Decode(data, seek, false, version).left)
  {
    hide DecodeBlocks;
    MonoIsBlocks(data, seek, version);
    var bytes := data[seek..];
    if |bytes| >= HEADER {
      BlocksAreS16(Whole(bytes[HEADER..]), SILENCE);
      assert forall samples: seq<int> :: [] + samples == samples;
    }
  }

  // Stereo

  function Both(left: Option<seq<int>>, right: Option<seq<int>>, l: Channel, r: Channel): Outcome {
    if left.Some? && right.Some? then Decoded(l.out + left.value, r.out + right.value) else OutOfTable
  }

  /** The end of the file does not fall inside a block, nor between the right channel's header and its
      first block. */
  predicate Aligned(data: seq<byte>, chunk: nat) {
    |data| % 16 == 0 && |data| >= HEADER && (|data| > chunk ==> |data| >= chunk + HEADER + BLOCK)
  }

  predicate IsChunk(chunk: nat) {
    chunk == 0x1000 || chunk == 0x2000
  }

  /** The toggling state in closed form: having read up to seek = k * chunk + bytesRead, the decoder is
      in chunk k, which belongs to the left channel when k is even. */
  predicate InChunk(p: Position, k: nat, chunk: nat) {
    && p.seek == k * chunk + p.bytesRead && 0 < p.bytesRead <= chunk && p.bytesRead % 16 == 0
    && p.processingLeft == (k % 2 == 0) && p.firstRight == (k == 0)
  }

  /** What is left of the right channel; its header is stepped over once. */
  function RightRest(data: seq<byte>, p: Position, chunk: nat): seq<byte>
    requires p.seek <= |data| && chunk > 0
  {
    var side := Side(data, p.seek, chunk, 1);
    if p.firstRight && |side| >= HEADER then side[HEADER..] else side
  }

  lemma NextRoom(n: nat, chunk: nat)
    requires IsChunk(chunk) && n % 16 == 0 && n < chunk
    ensures n + 16 <= chunk && (n + 16) % 16 == 0
  {
  }

  lemma ChunksAligned(k: nat, chunk: nat)
    requires IsChunk(chunk)
    ensures (k * chunk) % 16 == 0 && (k + 1) * chunk == k * chunk + chunk
  {
    var m := if chunk == 0x1000 then 256 * k else 512 * k;
    assert k * chunk == 16 * m;
    Sixteens(m);
  }

  lemma Sixteens(m: nat)
    ensures (16 * m) % 16 == 0
  {
  }

  lemma Apart(o: nat, start: nat)
    requires o % 16 == 0 && start % 16 == 0 && start <= o
    ensures (o - start) % 16 == 0
  {
  }

  lemma ChunkRoom(o: nat, k: nat, chunk: nat)
    requires IsChunk(chunk) && o % 16 == 0 && k * chunk <= o <= k * chunk + chunk
    ensures (k + 1) * chunk == k * chunk + chunk
    ensures o < k * chunk + chunk ==> o + 16 <= k * chunk + chunk
  {
    var start := k * chunk;
    ChunksAligned(k, chunk);
    Apart(o, start);
    if o < start + chunk {
      NextRoom(o - start, chunk);
    }
  }

  /** The chunk that offset o starts or continues. */
  function ChunkAt(o: nat, k: nat, chunk: nat): nat {
    if o == k * chunk + chunk then k + 1 else k
  }

  /** One block of the file, seen from one side. */
  lemma SideBlock(data: seq<byte>, o: nat, chunk: nat, k: nat, parity: nat)
    requires IsChunk(chunk) && |data| % 16 == 0 && o % 16 == 0 && o < |data|
    requires k * chunk <= o <= k * chunk + chunk
    ensures o + 16 <= |data| && ChunkAt(o, k, chunk) * chunk <= o + 16 <= ChunkAt(o, k, chunk) * chunk + chunk
    ensures Side(data, o, chunk, parity) ==
      (if ChunkAt(o, k, chunk) % 2 == parity then data[o..o + 16] else []) + Side(data, o + 16, chunk, parity)
  {
    ChunkAtRoom(o, k, chunk);
    NextSixteen(o, |data|);
    hide Side, ChunkAt;
    SideRun(data, o, 16, chunk, ChunkAt(o, k, chunk), parity);
  }

  lemma ChunkAtRoom(o: nat, k: nat, chunk: nat)
    requires IsChunk(chunk) && o % 16 == 0 && k * chunk <= o <= k * chunk + chunk
    ensures ChunkAt(o, k, chunk) * chunk <= o && o + 16 <= ChunkAt(o, k, chunk) * chunk + chunk
  {
    ChunkRoom(o, k, chunk);
  }

  lemma NextSixteen(o: nat, n: nat)
    requires o % 16 == 0 && n % 16 == 0 && o < n
    ensures o + 16 <= n
  {
  }

  lemma {:induction false} SideAligned(data: seq<byte>, o: nat, chunk: nat, k: nat, parity: nat)
    requires IsChunk(chunk) && |data| % 16 == 0 && o % 16 == 0 && o <= |data|
    requires k * chunk <= o <= k * chunk + chunk
    ensures |Side(data, o, chunk, parity)| % 16 == 0
    decreases |data| - o
  {
    if o < |data| {
      SideBlock(data, o, chunk, k, parity);
      hide Side, ChunkAt;
      SideAligned(data, o + 16, chunk, ChunkAt(o, k, chunk), parity);
      AddSixteen(|Side(data, o + 16, chunk, parity)|);
    }
  }

  lemma AddSixteen(n: nat)
    requires n % 16 == 0
    ensures (n + 16) % 16 == 0
  {
  }

  /** The two streams still to decode, from position p. */
  function StereoTail(data: seq<byte>, chunk: nat, p: Position, left: Channel, right: Channel): Outcome
    requires p.seek <= |data| && chunk > 0
    requires |Side(data, p.seek, chunk, 0)| % 16 == 0 && |RightRest(data, p, chunk)| % 16 == 0
  {
    Both(DecodeBlocks(Side(data, p.seek, chunk, 0), left.h), DecodeBlocks(RightRest(data, p, chunk), right.h), left, right)
  }

  lemma TailsAligned(data: seq<byte>, chunk: nat, p: Position, k: nat)
    requires IsChunk(chunk) && Aligned(data, chunk) && InChunk(p, k, chunk) && p.seek <= |data| && p.seek % 16 == 0
    ensures |Side(data, p.seek, chunk, 0)| % 16 == 0 && |RightRest(data, p, chunk)| % 16 == 0
  {
    hide Side;
    SideAligned(data, p.seek, chunk, k, 0);
    SideAligned(data, p.seek, chunk, k, 1);
  }

  /** Decoding one block first does not change what two streams decode to. */
  lemma BlockFirst(block: seq<byte>, rest: seq<byte>, c: Channel)
    requires |block| == BLOCK && |rest| % 16 == 0
    ensures |block + rest| % 16 == 0
    ensures block[0] / 16 >= 5 ==> DecodeBlocks(block + rest, c.h) == None
    ensures block[0] / 16 < 5 ==>
      var next := AddBlock(c, DecodeBlock(block, c.h));
      match DecodeBlocks(rest, next.h)
      case None => DecodeBlocks(block + rest, c.h) == None
      case Some(t) => DecodeBlocks(block + rest, c.h).Some? && c.out + DecodeBlocks(block + rest, c.h).value == next.out + t
  {
    hide DecodeBlock;
    AddSixteen(|rest|);
    var bytes := block + rest;
    assert bytes[..BLOCK] == block && bytes[BLOCK..] == rest;
    if block[0] / 16 < 5 {
      var samples := DecodeBlock(block, c.h);
      if t :| DecodeBlocks(rest, HistoryAfter(c.h, samples)) == Some(t) {
        assert c.out + (samples + t) == (c.out + samples) + t;
      }
    }
  }

  /** Reading a block of the left channel. */
  lemma LeftTurn(data: seq<byte>, chunk: nat, p: Position, next: Position, k: nat, left: Channel, right: Channel)
    requires IsChunk(chunk) && Aligned(data, chunk) && InChunk(p, k, chunk) && p.seek < |data| && p.seek % 16 == 0
    requires ChunkAt(p.seek, k, chunk) % 2 == 0 && next.seek == p.seek + 16 <= |data|
    requires next.firstRight == p.firstRight
    requires |Side(data, p.seek, chunk, 0)| % 16 == 0 && |RightRest(data, p, chunk)| % 16 == 0
    requires |Side(data, next.seek, chunk, 0)| % 16 == 0 && |RightRest(data, next, chunk)| % 16 == 0
    ensures
      var block := data[p.seek..p.seek + 16];
      StereoTail(data, chunk, p, left, right) ==
        if block[0] / 16 >= 5 then OutOfTable
        else StereoTail(data, chunk, next, AddBlock(left, DecodeBlock(block, left.h)), right)
  {
    hide Side, ChunkAt, DecodeBlock, DecodeBlocks, AddBlock;
    SideBlock(data, p.seek, chunk, k, 0);
    SideBlock(data, p.seek, chunk, k, 1);
    assert RightRest(data, p, chunk) == RightRest(data, next, chunk);
    var block := data[p.seek..p.seek + 16];
    BlockFirst(block, Side(data, next.seek, chunk, 0), left);
    if block[0] / 16 < 5 { AddKeeps(left, DecodeBlock(block, left.h)); }
  }

  lemma AddKeeps(c: Channel, samples: seq<int>)
    ensures AddBlock(c, samples).out == c.out + samples
  {
  }

  /** Reading a block of the right channel that is not its first. */
  lemma RightTurn(data: seq<byte>, chunk: nat, p: Position, next: Position, k: nat, left: Channel, right: Channel)
    requires IsChunk(chunk) && Aligned(data, chunk) && InChunk(p, k, chunk) && p.seek < |data| && p.seek % 16 == 0
    requires ChunkAt(p.seek, k, chunk) % 2 == 1 && next.seek == p.seek + 16 <= |data|
    requires !next.firstRight && !p.firstRight
    requires |Side(data, p.seek, chunk, 0)| % 16 == 0 && |RightRest(data, p, chunk)| % 16 == 0
    requires |Side(data, next.seek, chunk, 0)| % 16 == 0 && |RightRest(data, next, chunk)| % 16 == 0
    ensures
      var block := data[p.seek..p.seek + 16];
      StereoTail(data, chunk, p, left, right) ==
        if block[0] / 16 >= 5 then OutOfTable
        else StereoTail(data, chunk, next, left, AddBlock(right, DecodeBlock(block, right.h)))
  {
    hide Side, ChunkAt, DecodeBlock, DecodeBlocks, AddBlock;
    SideBlock(data, p.seek, chunk, k, 0);
    SideBlock(data, p.seek, chunk, k, 1);
    assert Side(data, p.seek, chunk, 0) == Side(data, next.seek, chunk, 0);
    assert RightRest(data, next, chunk) == Side(data, next.seek, chunk, 1);
    var block := data[p.seek..p.seek + 16];
    BlockFirst(block, Side(data, next.seek, chunk, 1), right);
    if block[0] / 16 < 5 { AddKeeps(right, DecodeBlock(block, right.h)); }
  }

  /** Entering the right channel for the first time: its header, then its first block. */
  lemma FirstRightTurn(data: seq<byte>, chunk: nat, p: Position, next: Position, left: Channel, right: Channel)
    requires IsChunk(chunk) && Aligned(data, chunk) && p.seek == chunk < |data| && p.firstRight
    requires next.seek == chunk + HEADER + BLOCK && !next.firstRight
    requires |Side(data, p.seek, chunk, 0)| % 16 == 0 && |RightRest(data, p, chunk)| % 16 == 0
    requires |Side(data, next.seek, chunk, 0)| % 16 == 0 && |RightRest(data, next, chunk)| % 16 == 0
    ensures
      var at := chunk + HEADER;
      var block := data[at..at + 16];
      StereoTail(data, chunk, p, left, right) ==
        if block[0] / 16 >= 5 then OutOfTable
        else StereoTail(data, chunk, next, left, AddBlock(right, DecodeBlock(block, right.h)))
  {
    hide Side, ChunkAt, DecodeBlock, DecodeBlocks, AddBlock;
    var at := chunk + HEADER;
    SideRun(data, chunk, HEADER, chunk, 1, 0);
    SideRun(data, chunk, HEADER, chunk, 1, 1);
    SideRun(data, at, BLOCK, chunk, 1, 0);
    SideRun(data, at, BLOCK, chunk, 1, 1);
    assert RightRest(data, p, chunk) == Side(data, at, chunk, 1);
    assert Side(data, p.seek, chunk, 0) == Side(data, at, chunk, 0) == Side(data, next.seek, chunk, 0);
    assert RightRest(data, next, chunk) == Side(data, next.seek, chunk, 1);
    var block := data[at..at + 16];
    BlockFirst(block, Side(data, next.seek, chunk, 1), right);
    if block[0] / 16 < 5 { AddKeeps(right, DecodeBlock(block, right.h)); }
  }

  lemma Step(p: Position, k: nat, chunk: nat)
    requires IsChunk(chunk) && InChunk(p, k, chunk) && p.bytesRead < chunk
    ensures ChunkAt(p.seek, k, chunk) == k
    ensures InChunk(p.(seek := p.seek + BLOCK, bytesRead := p.bytesRead + BLOCK), k, chunk)
  {
    NextRoom(p.bytesRead, chunk);
  }

  lemma Turnover(p: Position, k: nat, chunk: nat, at: Position)
    requires IsChunk(chunk) && InChunk(p, k, chunk) && p.bytesRead == chunk
    requires at == Position(if k == 0 then p.seek + HEADER else p.seek, if k == 0 then HEADER else 0, k % 2 == 1, false)
    ensures ChunkAt(p.seek, k, chunk) == k + 1
    ensures k == 0 ==> p.seek == chunk
    ensures InChunk(at.(seek := at.seek + BLOCK, bytesRead := at.bytesRead + BLOCK), k + 1, chunk)
  {
    assert (k + 1) * chunk == k * chunk + chunk;
  }

  lemma ChunkFacts(p: Position, k: nat, chunk: nat)
    requires InChunk(p, k, chunk)
    ensures 0 < p.bytesRead <= chunk && p.processingLeft == (k % 2 == 0) && p.firstRight == (k == 0)
  {
    hide ChunkAt;
  }

  lemma SwitchInChunk(p: Position, k: nat, chunk: nat, version: nat) returns (at: Position, k': nat)
    requires chunk == ChunkSize(version) && InChunk(p, k, chunk) && p.seek % 16 == 0
    ensures at == Switch(p, true, version) && k' == ChunkAt(p.seek, k, chunk)
    ensures at.processingLeft <==> k' % 2 == 0
    ensures at.seek == p.seek || (at.seek == p.seek + HEADER && p.seek == chunk)
    ensures p.bytesRead == chunk && k == 0 ==> at.seek == p.seek + HEADER && !at.firstRight && p.firstRight && p.seek == chunk && k' == 1
    ensures !(p.bytesRead == chunk && k == 0) ==>
      at.firstRight == p.firstRight && at.seek == p.seek && (k' % 2 == 1 ==> !p.firstRight)
    ensures InChunk(at.(seek := at.seek + BLOCK, bytesRead := at.bytesRead + BLOCK), k', chunk)
  {
    at, k' := Switch(p, true, version), ChunkAt(p.seek, k, chunk);
    ChunkFacts(p, k, chunk);
    hide InChunk, ChunkAt;
    if p.bytesRead < chunk {
      Step(p, k, chunk);
    } else {
      Turnover(p, k, chunk, at);
    }
  }

  lemma StereoEnd(data: seq<byte>, chunk: nat, p: Position, left: Channel, right: Channel)
    requires p.seek == |data| && chunk > 0
    ensures Side(data, p.seek, chunk, 0) == [] && RightRest(data, p, chunk) == []
    ensures StereoTail(data, chunk, p, left, right) == Decoded(left.out, right.out)
  {
    assert left.out + [] == left.out && right.out + [] == right.out;
  }

  lemma RoomForBlock(data: seq<byte>, chunk: nat, p: Position, at: Position, k: nat)
    requires IsChunk(chunk) && Aligned(data, chunk) && p.seek < |data| && p.seek % 16 == 0
    requires at.seek == p.seek || (at.seek == p.seek + HEADER && p.seek == chunk)
    ensures at.seek + BLOCK <= |data|
  {
    NextSixteen(p.seek, |data|);
  }

  lemma TurnIs(data: seq<byte>, version: nat, p: Position, at: Position, left: Channel, right: Channel)
    requires p.seek < |data| && at == Switch(p, true, version) && at.seek + BLOCK <= |data|
    ensures
      var block := data[at.seek..at.seek + BLOCK];
      var next := at.(seek := at.seek + BLOCK, bytesRead := at.bytesRead + BLOCK);
      Walk(data, true, version, p, left, right) ==
        if block[0] / 16 >= 5 then OutOfTable
        else if at.processingLeft
        then Walk(data, true, version, next, AddBlock(left, DecodeBlock(block, left.h)), right)
        else Walk(data, true, version, next, left, AddBlock(right, DecodeBlock(block, right.h)))
  {
    hide Switch, AddBlock, DecodeBlock;
  }

  lemma {:induction false} WalkStereo(
    data: seq<byte>, version: nat, chunk: nat, p: Position, k: nat, left: Channel, right: Channel)
    requires chunk == ChunkSize(version) && Aligned(data, chunk) && InChunk(p, k, chunk)
    requires p.seek <= |data| && p.seek % 16 == 0
    ensures |Side(data, p.seek, chunk, 0)| % 16 == 0 && |RightRest(data, p, chunk)| % 16 == 0
    ensures Walk(data, true, version, p, left, right) == StereoTail(data, chunk, p, left, right)
    decreases |data| - p.seek
  {
    hide Side, ChunkAt, DecodeBlock, AddBlock, RightRest, StereoTail, InChunk, Aligned, Switch, Turn;
    TailsAligned(data, chunk, p, k);
    if p.seek == |data| {
      StereoEnd(data, chunk, p, left, right);
    } else {
      var at, k' := SwitchInChunk(p, k, chunk, version);
      var next := at.(seek := at.seek + BLOCK, bytesRead := at.bytesRead + BLOCK);
      RoomForBlock(data, chunk, p, at, k);
      TurnIs(data, version, p, at, left, right);
      AddSixteen(at.seek);
      TailsAligned(data, chunk, next, k');
      var block := data[at.seek..at.seek + BLOCK];
      if p.bytesRead == chunk && k == 0 {
        FirstRightTurn(data, chunk, p, next, left, right);
      } else if k' % 2 == 0 {
        LeftTurn(data, chunk, p, next, k, left, right);
      } else {
        RightTurn(data, chunk, p, next, k, left, right);
      }
      if block[0] / 16 < 5 {
        if k' % 2 == 0 {
          WalkStereo(data, version, chunk, next, k', AddBlock(left, DecodeBlock(block, left.h)), right);
        } else {
          WalkStereo(data, version, chunk, next, k', left, AddBlock(right, DecodeBlock(block, right.h)));
        }
      }
    }
  }

  /** The left outcome's samples with the right outcome's. */
  function Join(left: Outcome, right: Outcome): Outcome {
    if left.Decoded? && right.Decoded? then Decoded(left.left, right.left) else OutOfTable
  }

  /** What the right channel's chunks decode to on their own; a file of one chunk has none. */
  function RightFile(data: seq<byte>, version: nat, chunk: nat): Outcome
    requires chunk > 0
  {
    var side := Side(data, 0, chunk, 1);
    if side == [] then Decoded([], []) else Decode(side, 0, false, version)
  }

  /** The start of a file: both sides, before and after the left header. */
  lemma StereoStart(data: seq<byte>, chunk: nat)
    requires IsChunk(chunk) && Aligned(data, chunk)
    ensures Side(data, 0, chunk, 0) == data[..HEADER] + Side(data, HEADER, chunk, 0)
    ensures Side(data, 0, chunk, 1) == Side(data, HEADER, chunk, 1)
    ensures |Side(data, 0, chunk, 1)| % 16 == 0 && |Side(data, HEADER, chunk, 0)| % 16 == 0
    ensures |data| <= chunk ==> Side(data, 0, chunk, 1) == []
    ensures |data| > chunk ==> |Side(data, 0, chunk, 1)| >= HEADER
  {
    hide Side;
    SideRun(data, 0, HEADER, chunk, 0, 0);
    SideRun(data, 0, HEADER, chunk, 0, 1);
    SideAligned(data, 0, chunk, 0, 1);
    SideAligned(data, HEADER, chunk, 0, 0);
    if |data| <= chunk {
      SideRun(data, 0, |data|, chunk, 0, 1);
      SideNone(data, chunk, 1);
    } else {
      SideRun(data, 0, chunk, chunk, 0, 1);
      SideRun(data, chunk, HEADER, chunk, 1, 1);
    }
  }

  lemma SideNone(data: seq<byte>, chunk: nat, parity: nat)
    requires chunk > 0
    ensures Side(data, |data|, chunk, parity) == []
  {
  }

  lemma MonoWhole(bytes: seq<byte>)
    requires |bytes| % 16 == 0
    ensures MonoTail(bytes, Channel(SILENCE, []), Channel(SILENCE, [])) ==
      if DecodeBlocks(bytes, SILENCE).Some? then Decoded([] + DecodeBlocks(bytes, SILENCE).value, []) else OutOfTable
  {
    assert Whole(bytes) == bytes;
  }

  lemma NoBlocks(h: History)
    ensures DecodeBlocks([], h) == Some([])
  {
  }

  /** Decoding a stereo file is decoding two mono files: the even and the odd chunks, each with its own
      header. Chunks are 4096 bytes in version 3 and 8192 in every other. */
  lemma StereoIsTwoMonos(data: seq<byte>, version: nat, chunk: nat)
    requires chunk == (if version == 3 then 4096 else 8192) && Aligned(data, chunk)
    ensures Decode(data, 0, true, version) ==
      Join(Decode(Side(data, 0, chunk, 0), 0, false, version), RightFile(data, version, chunk))
  {
    hide Side, DecodeBlocks, Walk;
    var p := Position(HEADER, HEADER, true, true);
    var none := Channel(SILENCE, []);
    var lefts, rights := Side(data, 0, chunk, 0), Side(data, 0, chunk, 1);
    StereoStart(data, chunk);
    WalkStereo(data, version, chunk, p, 0, none, none);
    MonoIsBlocks(lefts, 0, version);
    assert lefts[0..] == lefts && rights[0..] == rights;
    assert lefts[HEADER..] == Side(data, HEADER, chunk, 0);
    MonoWhole(lefts[HEADER..]);
    if rights == [] {
      NoBlocks(SILENCE);
    } else {
      MonoIsBlocks(rights, 0, version);
      MonoWhole(rights[HEADER..]);
    }
  }

  // Putting two files together

  /** Chunks of a file of na bytes and of one of nb bytes alternate: every chunk but the last is full. */
  predicate Alternates(na: nat, nb: nat, chunk: nat)
    requires chunk > 0
    decreases na + nb
  {
    if nb == 0 then na <= chunk else na >= chunk && Alternates(nb, na - chunk, chunk)
  }

  function Interleave(a: seq<byte>, b: seq<byte>, chunk: nat): (data: seq<byte>)
    requires chunk > 0 && Alternates(|a|, |b|, chunk)
    ensures |data| == |a| + |b|
    decreases |a| + |b|
  {
    if b == [] then a else a[..chunk] + Interleave(b, a[chunk..], chunk)
  }

  /** The chunks come apart again. */
  lemma {:induction false} InterleaveSides(data: seq<byte>, o: nat, a: seq<byte>, b: seq<byte>, chunk: nat, k: nat)
    requires chunk > 0 && Alternates(|a|, |b|, chunk) && o == k * chunk <= |data|
    requires data[o..] == Interleave(a, b, chunk)
    ensures Side(data, o, chunk, k % 2) == a && Side(data, o, chunk, 1 - k % 2) == b
    decreases |a| + |b|
  {
    hide Side;
    if b == [] {
      SideRun(data, o, |a|, chunk, k, k % 2);
      SideRun(data, o, |a|, chunk, k, 1 - k % 2);
      SideNone(data, chunk, k % 2);
      SideNone(data, chunk, 1 - k % 2);
      assert data[o..o + |a|] == data[o..];
    } else {
      SideRun(data, o, chunk, chunk, k, k % 2);
      SideRun(data, o, chunk, chunk, k, 1 - k % 2);
      NextChunk(data, o, a, b, chunk, k);
      InterleaveSides(data, o + chunk, b, a[chunk..], chunk, k + 1);
      assert a == a[..chunk] + a[chunk..];
    }
  }

  lemma NextChunk(data: seq<byte>, o: nat, a: seq<byte>, b: seq<byte>, chunk: nat, k: nat)
    requires chunk > 0 && Alternates(|a|, |b|, chunk) && b != [] && o == k * chunk <= |data|
    requires data[o..] == Interleave(a, b, chunk)
    ensures o + chunk == (k + 1) * chunk <= |data| && (1 - k % 2) == (k + 1) % 2
    ensures data[o..o + chunk] == a[..chunk] && data[o + chunk..] == Interleave(b, a[chunk..], chunk)
  {
    OneMoreChunk(k, chunk);
    var later := Interleave(b, a[chunk..], chunk);
    assert data[o..] == a[..chunk] + later;
    hide Interleave, Alternates;
    CutAt(data, o, chunk, a[..chunk], later);
  }

  lemma OneMoreChunk(k: nat, chunk: nat)
    ensures (k + 1) * chunk == k * chunk + chunk && (1 - k % 2) == (k + 1) % 2
  {
  }

  lemma CutAt(data: seq<byte>, o: nat, n: nat, first: seq<byte>, later: seq<byte>)
    requires o <= |data| && data[o..] == first + later && |first| == n
    ensures o + n <= |data| && data[o..o + n] == first && data[o + n..] == later
  {
    assert data[o..][..n] == first && data[o..][n..] == later;
  }

  /** Two mono files put together decode to the samples of each. */
  lemma InterleavedDecode(left: seq<byte>, right: seq<byte>, version: nat, chunk: nat)
    requires chunk == (if version == 3 then 4096 else 8192) && Alternates(|left|, |right|, chunk)
    requires |left| % 16 == 0 && |right| % 16 == 0 && |left| >= HEADER && |right| >= HEADER + BLOCK
    ensures Decode(Interleave(left, right, chunk), 0, true, version) ==
      Join(Decode(left, 0, false, version), Decode(right, 0, false, version))
  {
    hide Side, Walk, Decode, Interleave, Aligned;
    var data := Interleave(left, right, chunk);
    assert data[0..] == data;
    FirstOffset(chunk);
    InterleaveSides(data, 0, left, right, chunk, 0);
    InterleaveAligned(data, |left|, |right|, chunk);
    hide Alternates;
    StereoIsTwoMonos(data, version, chunk);
    RightSide(data, right, version, chunk);
  }

  lemma FirstOffset(chunk: nat)
    ensures 0 == 0 * chunk
  {
  }

  lemma RightSide(data: seq<byte>, right: seq<byte>, version: nat, chunk: nat)
    requires chunk > 0 && Side(data, 0, chunk, 1) == right && right != []
    ensures RightFile(data, version, chunk) == Decode(right, 0, false, version)
  {
    hide Side, Decode;
  }

  lemma InterleaveAligned(data: seq<byte>, left: nat, right: nat, chunk: nat)
    requires chunk > 0 && Alternates(left, right, chunk) && |data| == left + right
    requires left % 16 == 0 && right % 16 == 0 && left >= HEADER && right >= HEADER + BLOCK
    ensures Aligned(data, chunk)
  {
    AddMultiples(left, right);
  }

  lemma AddMultiples(m: nat, n: nat)
    requires m % 16 == 0 && n % 16 == 0
    ensures (m + n) % 16 == 0
  {
  }
}
