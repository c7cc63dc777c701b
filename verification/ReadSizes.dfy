/**
 Which sequences of reads get all of a block from a read stream
 (internal/rpc/block_read_stream.go): those in which two reads in a row always ask for a
 whole chunk. Any other can be told EOF while bytes are left in the chunk buffer.
 */
module ReadSizes {
  import opened Common
  import opened ReadStream

  /** Two reads in a row, with a third behind them, ask for a whole chunk or more. */
  predicate PairsReachChunk(sizes: seq<nat>, chunkSize: nat) {
    forall i :: 0 < i < |sizes| - 1 ==> chunkSize <= sizes[i - 1] + sizes[i]
  }

  /** What was read before a read of `size` bytes left no more in the buffer than a chunk
      without that, and the last packet has not begun. */
  ghost predicate DrainsNext(s: BlockReadStream, size: nat)
    reads s
  {
    s.ended || (s.chunk != [] ==> size + |s.chunk| <= s.chunkSize && !s.lastPacket)
  }

  lemma ServesDrains(buffered: nat, last: nat, size: nat, left: nat, chunkSize: nat, n: nat, kept: nat)
    requires chunkSize > 0 && Serves(buffered, size, left, chunkSize, n, kept)
    requires buffered > 0 ==> last + buffered <= chunkSize <= last + size
    ensures kept > 0 ==> size + kept <= chunkSize && left > 0 && buffered == 0
  {
    assert size >= chunkSize && size <= left ==> size / chunkSize * chunkSize <= size;
  }

  /** The decoder over any sequence of reads. With `sizes` the buffer sizes, what has been
      returned so far is always a prefix of the packets' data. At an EOF before the connection
      ends, `kept` bytes are missing; none if two reads in a row always ask for a chunk. */
  method ReadSequence(frames: seq<Frame>, chunkSize: nat, crc: Bytes -> uint32, sizes: seq<nat>)
    returns (output: Bytes, eof: bool, kept: Bytes)
    requires chunkSize > 0 && HonestFrames(frames)
    ensures output <= FrameData(frames)
    ensures eof ==> output + kept == FrameData(frames)
    ensures eof && PairsReachChunk(sizes, chunkSize) ==> output == FrameData(frames)
  {
    hide BlockReadStream.Valid, BlockReadStream.Remaining, HonestFrames, FrameData, LargeAmount, Serves;
    var s := new BlockReadStream(frames, chunkSize, crc);
    output, eof, kept := [], false, [];
    var i, last := 0, chunkSize;
    while i < |sizes|
      invariant i <= |sizes| && fresh(s) && s.Valid() && s.chunkSize == chunkSize
      invariant output + s.Remaining() == FrameData(frames)
      invariant last == if i == 0 then chunkSize else sizes[i - 1]
      invariant i < |sizes| && PairsReachChunk(sizes, chunkSize) ==> DrainsNext(s, last)
      invariant kept == s.chunk && (eof ==> s.Remaining() == kept)
      invariant eof && PairsReachChunk(sizes, chunkSize) ==> kept == []
    {
      var b := new uint8[sizes[i]];
      ghost var due, buffered, left := s.Remaining(), |s.chunk|, s.Left();
      var n, err := s.Read(b, 0, b.Length);
      assert b[0..n] == b[..n] == due[..n];
      output := output + b[..n];
      assert output + due[n..] == FrameData(frames);
      if err !in {Nil, EOF} {
        eof := false;
        return;
      }
      if PairsReachChunk(sizes, chunkSize) && i + 1 < |sizes| && !s.ended && err == Nil {
        ServesDrains(buffered, last, sizes[i], left, chunkSize, n, |s.chunk|);
      }
      eof, kept := err == EOF && !s.ended, s.chunk;
      last, i := sizes[i], i + 1;
    }
  }

  // --- the converse: two reads in a row that ask for less ---

  /** One packet for each read, as large as the read can take in one go. */
  function OnePerRead(sizes: seq<nat>, chunkSize: nat): seq<Frame> {
    if sizes == [] then []
    else [Frame(seq(Min(sizes[0], chunkSize), _ => 0), false)] + OnePerRead(sizes[1..], chunkSize)
  }

  lemma {:induction false} OnePerReadAt(sizes: seq<nat>, chunkSize: nat, i: nat)
    requires i < |sizes|
    ensures |OnePerRead(sizes, chunkSize)| == |sizes|
    ensures var f := OnePerRead(sizes, chunkSize)[i]; !f.last && |f.data| == Min(sizes[i], chunkSize)
    decreases |sizes|
  {
    if |sizes| > 1 {
      OnePerReadAt(sizes[1..], chunkSize, if i == 0 then 0 else i - 1);
    }
  }

  /** A packet for each of the reads before, one with `data`, and the last one. */
  function ShortPairFrames(before: seq<nat>, chunkSize: nat, data: Bytes): seq<Frame> {
    OnePerRead(before, chunkSize) + [Frame(data, false), Frame([], true)]
  }

  lemma FramesAreHonest(before: seq<nat>, chunkSize: nat, data: Bytes)
    requires chunkSize > 0 && data != [] && forall i :: 0 <= i < |before| ==> 0 < before[i]
    ensures var frames := ShortPairFrames(before, chunkSize, data);
            && HonestFrames(frames) && |frames| == |before| + 2
            && frames[|before|..] == [Frame(data, false), Frame([], true)]
            && forall i :: 0 <= i < |before| ==> !frames[i].last && |frames[i].data| == Min(before[i], chunkSize)
  {
    forall i | 0 <= i < |before|
      ensures |OnePerRead(before, chunkSize)| == |before|
      ensures var f := OnePerRead(before, chunkSize)[i]; !f.last && |f.data| == Min(before[i], chunkSize)
    {
      OnePerReadAt(before, chunkSize, i);
    }
  }

  lemma TwoFrames(data: Bytes)
    ensures FrameData([Frame([], true)]) == []
    ensures FrameData([Frame(data, false), Frame([], true)]) == data
  {
    assert FrameData([Frame([], true)]) == [] + FrameData([]);
    assert [Frame(data, false), Frame([], true)][1..] == [Frame([], true)];
    assert data + [] == data;
  }

  /** A stream between two packets, with nothing in its buffer. */
  ghost predicate BetweenPackets(s: BlockReadStream, frames: seq<Frame>)
    reads s
  {
    && s.Valid() && !s.lastPacket && !s.ended && s.chunkIndex == s.numChunks
    && s.chunk == s.arriving == [] && s.frames == frames
  }

  /** A stream that has the rest of the only data packet in its buffer. */
  ghost predicate HoldsRest(s: BlockReadStream, rest: Bytes)
    reads s
  {
    s.Valid() && !s.lastPacket && s.chunkIndex == s.numChunks && s.frames == [Frame([], true)] && s.chunk == rest
  }

  /** A stream that has begun the last packet with something still in its buffer. */
  ghost predicate Starved(s: BlockReadStream)
    reads s
  {
    s.Valid() && s.lastPacket && s.chunkIndex == s.numChunks && s.chunk != []
  }

  lemma StarvedIsShort(s: BlockReadStream, output: Bytes, data: Bytes)
    requires Starved(s) && output + s.Remaining() == data
    ensures output < data && s.Valid() && s.lastPacket && s.chunkIndex == s.numChunks
  {
    s.NothingDue();
  }

  /** A read into a buffer of its own, with what `Read` says about it. */
  method ReadBytes(s: BlockReadStream, size: nat) returns (got: Bytes, err: Error)
    requires s.Valid()
    modifies s
    ensures err in {Nil, EOF} ==> s.Valid() && old(s.Remaining()) == got + s.Remaining()
    ensures err == Nil ==> Serves(old(|s.chunk|), size, old(s.Left()), s.chunkSize, |got|, |s.chunk|)
    ensures err == Nil && !old(s.lastPacket) ==>
              s.frames == if old(s.chunkIndex == s.numChunks) then old(s.frames)[1..] else old(s.frames)
    ensures err == Nil && old(s.chunk) != [] && old(s.chunkIndex == s.numChunks) ==> s.chunkIndex == 0
    ensures err == Nil && !old(s.ended) ==> !s.ended
    ensures old(s.lastPacket && s.chunkIndex == s.numChunks) ==> got == [] && err == EOF
  {
    hide BlockReadStream.Valid, BlockReadStream.Remaining, BlockReadStream.Left, Serves;
    var b := new uint8[size];
    ghost var due := s.Remaining();
    var n;
    n, err := s.Read(b, 0, size);
    got := b[..n];
    assert b[0..n] == got == due[..n];
  }

  /** A read that takes exactly one packet. */
  method ReadWhole(s: BlockReadStream, size: nat, ghost frames: seq<Frame>) returns (got: Bytes, err: Error)
    requires 0 < size && frames != [] && BetweenPackets(s, frames)
    requires !frames[0].last && |frames[0].data| == Min(size, s.chunkSize)
    modifies s
    ensures err == Nil ==> BetweenPackets(s, frames[1..]) && old(s.Remaining()) == got + s.Remaining()
  {
    ghost var data, rest := frames[0].data, frames[1..];
    assert size >= s.chunkSize ==> LargeAmount(size, s.chunkSize, s.chunkSize) == s.chunkSize;
    assert s.Remaining() == data + FrameData(rest);
    hide FrameData, Sums, CeilDiv, LargeAmount;
    got, err := ReadBytes(s, size);
    if err == Nil {
      assert |got| == |data| && s.chunk == [];
      assert |s.arriving + FrameData(rest)| == |FrameData(rest)|;
    }
  }

  /** The first read of a packet that fits into one chunk. */
  method ReadFirst(s: BlockReadStream, ghost data: Bytes, size: nat) returns (got: Bytes, err: Error)
    requires BetweenPackets(s, [Frame(data, false), Frame([], true)]) && size < |data| <= s.chunkSize
    modifies s
    ensures err == Nil ==> HoldsRest(s, data[size..]) && old(s.Remaining()) == got + s.Remaining()
  {
    TwoFrames(data);
    hide FrameData, Sums, CeilDiv, HonestFrames;
    assert s.Remaining() == [] + ([] + data) == data;
    got, err := ReadBytes(s, size);
    if err == Nil {
      assert |got| == size && |s.chunk| == |data| - size;
      assert s.Remaining() == data[size..] && s.arriving == [];
    }
  }

  /** The next one begins the last packet, and still leaves something in the buffer. */
  method ReadSecond(s: BlockReadStream, ghost rest: Bytes, size: nat) returns (got: Bytes, err: Error)
    requires HoldsRest(s, rest) && size < |rest|
    modifies s
    ensures err == Nil ==> Starved(s) && old(s.Remaining()) == got + s.Remaining()
  {
    hide Sums, CeilDiv, FrameData;
    got, err := ReadBytes(s, size);
    assert err == Nil ==> |got| == size && s.frames == [];
  }

  /** The reads before: each takes one packet, so all that is left are `frames[|sizes|..]`. */
  method ReadOneEach(s: BlockReadStream, sizes: seq<nat>, ghost frames: seq<Frame>) returns (output: Bytes, err: Error)
    requires BetweenPackets(s, frames) && |sizes| <= |frames|
    requires forall i :: 0 <= i < |sizes| ==>
                           0 < sizes[i] && !frames[i].last && |frames[i].data| == Min(sizes[i], s.chunkSize)
    modifies s
    ensures err == Nil ==> BetweenPackets(s, frames[|sizes|..]) && old(s.Remaining()) == output + s.Remaining()
  {
    hide BetweenPackets, BlockReadStream.Remaining;
    assert frames[0..] == frames;
    output, err := [], Nil;
    for k := 0 to |sizes|
      invariant err == Nil && BetweenPackets(s, frames[k..]) && old(s.Remaining()) == output + s.Remaining()
    {
      var got;
      got, err := ReadWhole(s, sizes[k], frames[k..]);
      if err != Nil {
        return;
      }
      assert frames[k..][1..] == frames[k + 1..];
      output := output + got;
    }
  }

  /** The short pair and the read behind it. */
  method ReadShortPair(s: BlockReadStream, ghost data: Bytes, first: nat, second: nat, third: nat)
    returns (output: Bytes, ok: bool, err: Error)
    requires BetweenPackets(s, [Frame(data, false), Frame([], true)]) && first + second < |data| <= s.chunkSize
    modifies s
    ensures ok ==> err == EOF && output < old(s.Remaining())
  {
    hide *;
    ghost var due := s.Remaining();
    ok := false;
    output, err := ReadFirst(s, data, first);
    if err != Nil {
      return;
    }
    var got;
    got, err := ReadSecond(s, data[first..], second);
    if err != Nil {
      return;
    }
    output := output + got;
    StarvedIsShort(s, output, due);
    got, err := ReadBytes(s, third);
    ok := true;
  }

  lemma PrefixBehind(a: Bytes, b: Bytes, c: Bytes)
    requires b < c
    ensures a + b < a + c
  {
  }

  /** EOF before the data is over: if two reads in a row ask for less than a chunk together,
      there are packets of which part is never delivered. The reads before get one packet each.
      The second of the two begins the last packet while the first has left more than it takes
      in the buffer, so the read after them is told EOF. `ok` says that none failed. */
  method EarlyEOF(sizes: seq<nat>, chunkSize: nat, crc: Bytes -> uint32, j: nat)
    returns (frames: seq<Frame>, output: Bytes, ok: bool, err: Error)
    requires 0 < j < |sizes| - 1 && sizes[j - 1] + sizes[j] < chunkSize
    requires forall i :: 0 <= i < j - 1 ==> 0 < sizes[i]
    ensures HonestFrames(frames)
    ensures ok ==> err == EOF && output < FrameData(frames)
  {
    var before, data := sizes[..j - 1], seq(chunkSize, _ => 0);
    frames := ShortPairFrames(before, chunkSize, data);
    FramesAreHonest(before, chunkSize, data);
    hide FrameData, HonestFrames, ShortPairFrames, BlockReadStream.Remaining, BlockReadStream.Valid;
    var s := new BlockReadStream(frames, chunkSize, crc);
    assert BetweenPackets(s, frames);
    hide BetweenPackets, Min;
    ok := false;
    output, err := ReadOneEach(s, before, frames);
    if err != Nil {
      return;
    }
    ghost var due := s.Remaining();
    var got;
    got, ok, err := ReadShortPair(s, data, sizes[j - 1], sizes[j], sizes[j + 1]);
    if ok {
      PrefixBehind(output, got, due);
    }
    output := output + got;
  }
}
