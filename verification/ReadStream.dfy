/**
 Decoding the packets of one datanode (internal/rpc/block_read_stream.go): small reads
 go through a one-chunk buffer, large ones straight into the caller's buffer.
 */
module ReadStream {
  import opened Common

  /** What the datanode sends for one packet. */
  datatype Frame = Frame(data: Bytes, last: bool)

  /** Every packet has data, except the last one, which has none. */
  predicate HonestFrames(frames: seq<Frame>) {
    && frames != []
    && forall i :: 0 <= i < |frames| ==>
                     (frames[i].last <==> i == |frames| - 1) && (frames[i].last <==> frames[i].data == [])
  }

  lemma HonestHead(frames: seq<Frame>)
    requires HonestFrames(frames)
    ensures frames[0].last <==> frames[0].data == []
    ensures if frames[0].last then frames[1..] == [] else HonestFrames(frames[1..])
  {
  }

  function FrameData(frames: seq<Frame>): Bytes {
    if frames == [] then [] else frames[0].data + FrameData(frames[1..])
  }

  /** The right checksums for `data`: one per chunk. */
  function Sums(data: Bytes, chunkSize: nat, crc: Bytes -> uint32): (sums: seq<uint32>)
    requires chunkSize > 0
    decreases |data|
  {
    if data == [] then []
    else
      var k := Min(chunkSize, |data|);
      [crc(data[..k])] + Sums(data[k..], chunkSize, crc)
  }

  lemma CeilDivStep(n: nat, d: nat)
    requires d > 0
    ensures CeilDiv(0, d) == 0
    ensures 0 < n <= d ==> CeilDiv(n, d) == 1
    ensures d < n ==> CeilDiv(n, d) == CeilDiv(n - d, d) + 1
  {
    DivUnique(d - 1, d, 0);
    if 0 < n <= d {
      DivUnique(n + d - 1, d, 1);
    } else if d < n {
      var q := CeilDiv(n - d, d);
      assert q * d <= n - 1 < q * d + d;
      assert (q + 1) * d == q * d + d;
      DivUnique(n + d - 1, d, q + 1);
    }
  }

  lemma {:induction false} SumsLength(data: Bytes, chunkSize: nat, crc: Bytes -> uint32)
    requires chunkSize > 0
    ensures |Sums(data, chunkSize, crc)| == CeilDiv(|data|, chunkSize)
    decreases |data|
  {
    CeilDivStep(|data|, chunkSize);
    if data != [] {
      SumsLength(data[Min(chunkSize, |data|)..], chunkSize, crc);
    }
  }

  /** Dropping c whole chunks drops their checksums, and each of those is the checksum of
      its chunk. */
  lemma {:induction false} SumsDrop(data: Bytes, chunkSize: nat, crc: Bytes -> uint32, c: nat)
    requires chunkSize > 0 && c * chunkSize <= |data|
    ensures c <= |Sums(data, chunkSize, crc)|
    ensures Sums(data, chunkSize, crc)[c..] == Sums(data[c * chunkSize..], chunkSize, crc)
    decreases c
  {
    if c > 0 {
      var rest, lo := data[chunkSize..], (c - 1) * chunkSize;
      assert c * chunkSize == lo + chunkSize;
      assert lo >= 0;
      SumsUnfold(data, chunkSize, crc);
      SumsDrop(rest, chunkSize, crc, c - 1);
      hide Sums;
      assert Sums(data, chunkSize, crc)[c..] == Sums(rest, chunkSize, crc)[c - 1..];
      assert rest[lo..] == data[lo + chunkSize..];
    } else {
      assert c * chunkSize == 0 && data[0..] == data;
    }
  }

  lemma SumsUnfold(data: Bytes, chunkSize: nat, crc: Bytes -> uint32)
    requires 0 < chunkSize <= |data|
    ensures Sums(data, chunkSize, crc) == [crc(data[..chunkSize])] + Sums(data[chunkSize..], chunkSize, crc)
  {
  }

  lemma SumOfChunk(data: Bytes, chunkSize: nat, crc: Bytes -> uint32, i: nat)
    requires chunkSize > 0 && i * chunkSize < |data|
    ensures i < |Sums(data, chunkSize, crc)|
    ensures Sums(data, chunkSize, crc)[i]
            == crc(data[i * chunkSize..Min(i * chunkSize + chunkSize, |data|)])
  {
    hide Sums;
    var lo := i * chunkSize;
    var sums, rest := Sums(data, chunkSize, crc), data[lo..];
    SumsDrop(data, chunkSize, crc, i);
    FirstSum(rest, chunkSize, crc);
    assert sums[i] == sums[i..][0];
    var m := Min(chunkSize, |rest|);
    assert Min(lo + chunkSize, |data|) == lo + m;
    PrefixOfDrop(data, lo, m);
  }

  lemma FirstSum(data: Bytes, chunkSize: nat, crc: Bytes -> uint32)
    requires chunkSize > 0 && data != []
    ensures |Sums(data, chunkSize, crc)| > 0
    ensures Sums(data, chunkSize, crc)[0] == crc(data[..Min(chunkSize, |data|)])
  {
  }

  /** The bytes a large read checks against slot i: a chunk of the caller's buffer, cut off
      where the buffer ends rather than where the packet's data does. */
  function UnderTest(buffer: Bytes, chunkSize: nat, i: nat): Bytes
    requires i * chunkSize <= |buffer|
  {
    buffer[i * chunkSize..Min(i * chunkSize + chunkSize, |buffer|)]
  }

  /** On honest data every whole chunk passes. A partial chunk at the end of the packet is
      checked together with the buffer contents behind it. */
  lemma LargeReadVerdict(data: Bytes, buffer: Bytes, chunkSize: nat, crc: Bytes -> uint32, i: nat)
    requires chunkSize > 0 && i * chunkSize < |data| <= |buffer| && buffer[..|data|] == data
    ensures i < |Sums(data, chunkSize, crc)|
    ensures i * chunkSize + chunkSize <= |data| ==> crc(UnderTest(buffer, chunkSize, i)) == Sums(data, chunkSize, crc)[i]
    ensures i * chunkSize + chunkSize > |data| ==>
              var stale := buffer[|data|..Min(i * chunkSize + chunkSize, |buffer|)];
              && Sums(data, chunkSize, crc)[i] == crc(data[i * chunkSize..])
              && UnderTest(buffer, chunkSize, i) == data[i * chunkSize..] + stale
  {
    hide Sums;
    SumOfChunk(data, chunkSize, crc, i);
    var lo, hi := i * chunkSize, i * chunkSize + chunkSize;
    if hi <= |data| {
      SliceOfPrefix(buffer, |data|, lo, hi);
    } else {
      SliceOfPrefix(buffer, |data|, lo, |data|);
      SliceSplit(buffer, lo, |data|, Min(hi, |buffer|));
      assert data[lo..|data|] == data[lo..];
    }
  }

  /** The test of chunk i comes out right with this checksum function. */
  predicate ChunkPasses(data: Bytes, buffer: Bytes, chunkSize: nat, crc: Bytes -> uint32, i: nat)
    requires chunkSize > 0 && i * chunkSize <= |buffer|
  {
    i < |Sums(data, chunkSize, crc)| && crc(UnderTest(buffer, chunkSize, i)) == Sums(data, chunkSize, crc)[i]
  }

  /** A checksum function under which honest data is rejected: the chunk is the last of the
      packet, not a whole one, and the buffer goes on behind it. */
  lemma PartialChunkRejected(data: Bytes, buffer: Bytes, chunkSize: nat, i: nat) returns (crc: Bytes -> uint32)
    requires chunkSize > 0 && i * chunkSize < |data| < |buffer| && buffer[..|data|] == data
    requires i * chunkSize + chunkSize > |data|
    ensures !ChunkPasses(data, buffer, chunkSize, crc, i)
  {
    var rest := data[i * chunkSize..];
    crc := b => if b == rest then 0 else 1;
    LargeReadVerdict(data, buffer, chunkSize, crc, i);
    assert |UnderTest(buffer, chunkSize, i)| > |rest|;
  }

  /** The check of chunk i accepts honest data whatever the checksum function exactly if the
      chunk is a whole one or the caller's buffer ends with the packet's data. */
  lemma ChunkIsSafe(data: Bytes, buffer: Bytes, chunkSize: nat, i: nat)
    requires chunkSize > 0 && i * chunkSize < |data| <= |buffer| && buffer[..|data|] == data
    ensures (forall crc: Bytes -> uint32 :: ChunkPasses(data, buffer, chunkSize, crc, i))
            <==> i * chunkSize + chunkSize <= |data| || |buffer| == |data|
  {
    hide ChunkPasses, Sums;
    if i * chunkSize + chunkSize <= |data| || |buffer| == |data| {
      forall crc: Bytes -> uint32
        ensures ChunkPasses(data, buffer, chunkSize, crc, i)
      {
        SafeChunkPasses(data, buffer, chunkSize, crc, i);
      }
    } else {
      var crc := PartialChunkRejected(data, buffer, chunkSize, i);
    }
  }

  lemma SafeChunkPasses(data: Bytes, buffer: Bytes, chunkSize: nat, crc: Bytes -> uint32, i: nat)
    requires chunkSize > 0 && i * chunkSize < |data| <= |buffer| && buffer[..|data|] == data
    requires i * chunkSize + chunkSize <= |data| || |buffer| == |data|
    ensures ChunkPasses(data, buffer, chunkSize, crc, i)
  {
    LargeReadVerdict(data, buffer, chunkSize, crc, i);
    hide Sums;
    if i * chunkSize + chunkSize > |data| {
      assert data[i * chunkSize..] + [] == data[i * chunkSize..];
    }
  }

  /** What is left of a packet once c of its chunks are read: exactly the other checksums. */
  lemma AfterChunks(data: Bytes, chunkSize: nat, crc: Bytes -> uint32, c: nat, amount: nat)
    requires chunkSize > 0 && amount <= |data|
    requires amount == c * chunkSize || (amount == |data| && c == CeilDiv(|data|, chunkSize))
    ensures c <= |Sums(data, chunkSize, crc)|
    ensures Sums(data, chunkSize, crc)[c..] == Sums(data[amount..], chunkSize, crc)
    ensures CeilDiv(|data|, chunkSize) - c == CeilDiv(|data| - amount, chunkSize)
    ensures |data| == amount <==> CeilDiv(|data|, chunkSize) == c
  {
    SumsLength(data, chunkSize, crc);
    SumsLength(data[amount..], chunkSize, crc);
    CeilDivStep(|data| - amount, chunkSize);
    if amount == c * chunkSize {
      SumsDrop(data, chunkSize, crc, c);
    }
  }

  lemma WholeChunkPasses(data: Bytes, buffer: Bytes, chunkSize: nat, crc: Bytes -> uint32, m: nat, i: nat)
    requires chunkSize > 0 && m <= |data| && m <= |buffer| && buffer[..m] == data[..m]
    requires i * chunkSize + chunkSize <= m
    ensures i < |Sums(data, chunkSize, crc)|
    ensures crc(UnderTest(buffer, chunkSize, i)) == Sums(data, chunkSize, crc)[i]
  {
    hide Sums;
    SumOfChunk(data, chunkSize, crc, i);
    var lo, hi := i * chunkSize, i * chunkSize + chunkSize;
    SliceOfPrefix(buffer, m, lo, hi);
    SliceOfPrefix(data, m, lo, hi);
  }

  lemma {:induction false} ChunkWithin(i: nat, c: nat, chunkSize: nat)
    requires i < c
    ensures i * chunkSize + chunkSize <= c * chunkSize
    decreases c
  {
    assert c * chunkSize == (c - 1) * chunkSize + chunkSize;
    if i < c - 1 {
      ChunkWithin(i, c - 1, chunkSize);
    }
  }

  /** What a large read of `len` bytes takes when `left` bytes of the packet are unread. */
  predicate LargePlan(len: nat, left: int, chunkSize: nat, chunks: int, amount: int) {
    && chunkSize > 0 && left > 0 && 0 < amount <= Min(len, left)
    && 0 < chunks <= CeilDiv(left, chunkSize) && (chunks - 1) * chunkSize < amount
    && (if len > left then amount == left && chunks == CeilDiv(left, chunkSize)
        else amount == chunks * chunkSize == len / chunkSize * chunkSize)
  }

  lemma PlanFits(len: nat, left: int, chunkSize: nat, chunks: int, amount: int)
    requires LargePlan(len, left, chunkSize, chunks, amount)
    ensures 0 < amount <= len && amount <= left && chunks > 0
  {
  }

  /** The test of every chunk that a large read takes comes out right. */
  predicate AllPass(data: Bytes, buffer: Bytes, chunkSize: nat, crc: Bytes -> uint32, chunks: nat)
    requires chunkSize > 0
  {
    forall i: nat :: i < chunks ==> i * chunkSize <= |buffer| && ChunkPasses(data, buffer, chunkSize, crc, i)
  }

  lemma WholeChunksPass(data: Bytes, buffer: Bytes, chunkSize: nat, crc: Bytes -> uint32, chunks: nat)
    requires chunkSize > 0 && chunks * chunkSize <= |data| && chunks * chunkSize <= |buffer|
    requires buffer[..chunks * chunkSize] == data[..chunks * chunkSize]
    ensures AllPass(data, buffer, chunkSize, crc, chunks)
  {
    hide Sums, UnderTest;
    forall i: nat | i < chunks
      ensures i * chunkSize <= |buffer| && ChunkPasses(data, buffer, chunkSize, crc, i)
    {
      ChunkWithin(i, chunks, chunkSize);
      WholeChunkPasses(data, buffer, chunkSize, crc, chunks * chunkSize, i);
    }
  }

  /** A plan for whole chunks only: the buffer is no longer than the rest of the packet, or
      that rest is in whole chunks. */
  lemma WhenPlanIsWhole(len: nat, left: nat, chunkSize: nat, chunks: nat, amount: nat)
    requires LargePlan(len, left, chunkSize, chunks, amount)
    ensures amount == chunks * chunkSize <==> len <= left || left % chunkSize == 0
  {
    if len > left {
      var q := left / chunkSize;
      assert left == q * chunkSize + left % chunkSize;
      if left % chunkSize == 0 {
        CeilDivUnique(left, chunkSize, q);
      } else if left == chunks * chunkSize {
        DivUnique(left, chunkSize, chunks);
      }
    }
  }

  /** A large read accepts honest data whatever the checksum function exactly if the buffer is
      no longer than the rest of the packet, or that rest is in whole chunks. */
  lemma LargeReadIsSafe(data: Bytes, buffer: Bytes, chunkSize: nat, chunks: nat, amount: nat)
    requires LargePlan(|buffer|, |data|, chunkSize, chunks, amount) && buffer[..amount] == data[..amount]
    ensures (forall crc: Bytes -> uint32 :: AllPass(data, buffer, chunkSize, crc, chunks))
            <==> |buffer| <= |data| || |data| % chunkSize == 0
  {
    hide AllPass;
    WhenPlanIsWhole(|buffer|, |data|, chunkSize, chunks, amount);
    if amount == chunks * chunkSize {
      forall crc: Bytes -> uint32
        ensures AllPass(data, buffer, chunkSize, crc, chunks)
      {
        WholeChunksPass(data, buffer, chunkSize, crc, chunks);
      }
    } else {
      var crc := PartialReadRejected(data, buffer, chunkSize, chunks);
    }
  }

  lemma PartialReadRejected(data: Bytes, buffer: Bytes, chunkSize: nat, chunks: nat) returns (crc: Bytes -> uint32)
    requires chunkSize > 0 && chunks > 0 && (chunks - 1) * chunkSize < |data| < chunks * chunkSize
    requires |data| < |buffer| && buffer[..|data|] == data
    ensures !AllPass(data, buffer, chunkSize, crc, chunks)
  {
    assert chunks * chunkSize == (chunks - 1) * chunkSize + chunkSize;
    crc := PartialChunkRejected(data, buffer, chunkSize, chunks - 1);
  }

  function LargeAmount(len: nat, left: nat, chunkSize: nat): nat
    requires chunkSize > 0
  {
    if len > left then left else len / chunkSize * chunkSize
  }

  /** A large read of the rest of a packet that ends in a partial chunk, into a longer buffer. */
  predicate StaleChunk(len: nat, left: int, chunkSize: nat) {
    0 < chunkSize <= len && 0 < left < len && left % chunkSize != 0
  }

  /** A read of `len` bytes, with `buffered` bytes held back and `left` to come in the packet,
      is served n bytes and holds back `kept`: from the buffer as long as there is anything in
      it, otherwise through one buffered chunk or straight from the packet. */
  predicate Serves(buffered: nat, len: nat, left: nat, chunkSize: nat, n: nat, kept: nat)
    requires chunkSize > 0
  {
    var supply :=
      if buffered > 0 then buffered else if len < chunkSize then Min(chunkSize, left) else LargeAmount(len, left, chunkSize);
    n == Min(len, supply) && n + kept == supply
  }

  lemma ProductGrows(a: nat, b: nat, c: nat)
    requires a <= b
    ensures a * c <= b * c
  {
    assert (b - a) * c >= 0;
  }

  lemma PositiveProduct(a: nat, b: nat)
    requires b > 0
    ensures a > 0 ==> a * b > 0
  {
  }

  lemma CeilBounds(n: nat, d: nat)
    requires n > 0 && d > 0
    ensures CeilDiv(n, d) > 0 && (CeilDiv(n, d) - 1) * d < n <= CeilDiv(n, d) * d
  {
    var q := CeilDiv(n, d);
    assert q * d <= n + d - 1 < q * d + d;
    assert (q - 1) * d == q * d - d;
    assert q <= 0 ==> q * d <= 0;
  }

  lemma WholeChunks(len: nat, left: nat, chunkSize: nat)
    requires 0 < chunkSize <= len <= left
    ensures LargePlan(len, left, chunkSize, len / chunkSize, len / chunkSize * chunkSize)
  {
    var c, q := len / chunkSize, CeilDiv(left, chunkSize);
    assert c * chunkSize <= len < c * chunkSize + chunkSize;
    assert c > 0 by {
      PositiveProduct(1, chunkSize);
    }
    assert (c - 1) * chunkSize == c * chunkSize - chunkSize;
    PositiveProduct(c, chunkSize);
    CeilBounds(left, chunkSize);
    if q < c {
      ChunkWithin(q, c, chunkSize);
    }
  }

  /** Puts `data` into the buffer from position `at` on. */
  method Store(b: array<uint8>, at: nat, data: Bytes)
    requires at + |data| <= b.Length
    modifies b
    ensures b[..] == old(b[..at]) + data + old(b[at + |data|..])
  {
    forall i | 0 <= i < |data| {
      b[at + i] := data[i];
    }
  }

  /** What one Read did to its buffer: it put the next n of the bytes due there, and left
      what precedes the buffer alone. An EOF brings no bytes, a failure never fills the
      buffer, and a Read of nothing without an error means that nothing was due. */
  ghost predicate Delivered(due: Bytes, after: Bytes, before: Bytes, lo: nat, hi: nat, n: nat, err: Error) {
    && lo + n <= hi <= |after| == |before|
    && n <= |due| && after[lo..lo + n] == due[..n]
    && after[..lo] == before[..lo]
    && err in {Nil, EOF, Failed, Panic}
    && (err == EOF ==> n == 0)
    && (err == Failed ==> n == 0 || lo + n < hi)
    && (err == Panic ==> n == 0 && due == [])
    && (err == Nil && n == 0 ==> lo == hi || due == [])
  }

  lemma StoredIsDelivered(due: Bytes, before: Bytes, got: Bytes, rest: Bytes, lo: nat, hi: nat, err: Error)
    requires lo + |got| <= hi <= |before| && due == got + rest
    requires err in {Nil, EOF, Failed, Panic} && (err == EOF ==> got == [])
    requires err == Failed ==> got == [] || lo + |got| < hi
    requires err == Panic ==> due == []
    requires err == Nil && got == [] ==> lo == hi || due == []
    ensures Delivered(due, before[..lo] + got + before[lo + |got|..], before, lo, hi, |got|, err)
    ensures due[|got|..] == rest
  {
    var after := before[..lo] + got + before[lo + |got|..];
    assert after[lo..lo + |got|] == got;
    assert after[..lo] == before[..lo];
  }

  lemma NothingDelivered(due: Bytes, buffer: Bytes, lo: nat, hi: nat, err: Error)
    requires lo <= hi <= |buffer| && err in {EOF, Failed, Panic} && (err == Panic ==> due == [])
    ensures Delivered(due, buffer, buffer, lo, hi, 0, err) && due[0..] == due
  {
  }

  lemma StoredSlice(after: Bytes, before: Bytes, got: Bytes, lo: nat, hi: nat)
    requires lo + |got| <= hi <= |before| && after == before[..lo] + got + before[lo + |got|..]
    ensures after[lo..hi][..|got|] == got
  {
    assert after[lo..lo + |got|] == got;
    assert after[lo..hi][..|got|] == after[lo..lo + |got|];
  }

  class BlockReadStream {
    const chunkSize: nat
    const crc: Bytes -> uint32      // the checksum the datanode announced

    // the connection
    var frames: seq<Frame>          // packets not yet begun
    var arriving: Bytes             // data of the current packet not yet read
    var ended: bool                 // the connection has ended; every further read gets EOF
    var broken: bool                // a read from the connection has failed

    // the decoder
    var checksums: seq<uint32>
    var chunk: Bytes
    var packetLength: nat
    var chunkIndex: nat
    var numChunks: nat
    var lastPacket: bool
    var rejected: bool              // a large read has failed its check

    /** What is left of the packet that the next read takes from. */
    function Left(): nat
      requires Valid()
      reads this
    {
      if lastPacket then 0 else if chunkIndex == numChunks then |frames[0].data| else InPacket()
    }

    /** Bytes of the current packet that the decoder has not read yet. */
    function InPacket(): int
      reads this`packetLength, this`chunkIndex
    {
      packetLength - chunkIndex * chunkSize
    }

    ghost predicate Valid()
      reads this
    {
      && chunkSize > 0
      && (if lastPacket then frames == [] && arriving == [] && packetLength == numChunks == 0
          else HonestFrames(frames) && chunkIndex <= numChunks)
      && (chunkIndex < numChunks ==> InPacket() > 0 && numChunks - chunkIndex == CeilDiv(InPacket(), chunkSize))
      && (!ended && !lastPacket ==>
            && |arriving| == (if chunkIndex < numChunks then InPacket() else 0)
            && chunkIndex <= |checksums| && checksums[chunkIndex..] == Sums(arriving, chunkSize, crc))
    }

    /** What an honest connection still has to deliver. */
    function Remaining(): Bytes
      reads this
    {
      chunk + (arriving + FrameData(frames))
    }

    lemma NothingDue()
      requires Valid() && lastPacket
      ensures Remaining() == chunk
    {
    }

    constructor (frames: seq<Frame>, chunkSize: nat, crc: Bytes -> uint32)
      requires chunkSize > 0 && HonestFrames(frames)
      ensures Valid() && Remaining() == FrameData(frames)
      ensures this.chunkSize == chunkSize && this.frames == frames && chunk == []
      ensures !lastPacket && !ended && chunkIndex == numChunks && arriving == [] && !broken && !rejected
    {
      this.frames, arriving, ended, broken, rejected := frames, [], false, false, false;
      this.chunkSize, this.crc := chunkSize, crc;
      checksums, chunk, packetLength, chunkIndex, numChunks, lastPacket := [], [], 0, 0, 0, false;
    }

    /** Reads up to k bytes of packet data; the connection may end or fail at any point. */
    method Receive(k: nat) returns (got: Bytes, err: Error)
      requires !ended ==> k <= |arriving|
      modifies this`arriving, this`ended, this`broken
      ensures broken == (old(broken) || err == Failed)
      ensures |got| <= k && old(arriving) == got + arriving
      ensures err in {Nil, EOF, Failed} && (err == Nil <==> |got| == k)
      ensures err == EOF ==> ended
      ensures old(ended) ==> got == [] && ended
      ensures !old(ended) && err == Nil ==> !ended
    {
      if k == 0 {
        assert [] + arriving == arriving;
        return [], Nil;
      } else if ended {
        assert [] + arriving == arriving;
        return [], EOF;
      }
      var m: nat, ends: bool := *, *;
      if m >= k {
        m, err := k, Nil;
      } else {
        err := if ends then EOF else Failed;
        ended, broken := ends, broken || !ends;
      }
      got, arriving := arriving[..m], arriving[m..];
    }

    /** Reads the header and the checksums of the next packet off the connection. */
    method ReadHeader() returns (err: Error)
      modifies this`ended, this`broken
      ensures err in {Nil, EOF, Failed} && broken == (old(broken) || err == Failed)
      ensures err == EOF ==> ended
      ensures err == Nil ==> !ended
      ensures old(ended) ==> err == EOF
    {
      if ended {
        return EOF;
      }
      var ok: bool, ends: bool := *, *;
      if ok {
        return Nil;
      }
      ended, broken := ends, broken || !ends;
      err := if ends then EOF else Failed;
    }

    lemma NewPacketIsValid()
      requires chunkSize > 0 && chunkIndex == 0 && packetLength == |arriving|
      requires numChunks == CeilDiv(packetLength, chunkSize) && checksums == Sums(arriving, chunkSize, crc)
      requires if lastPacket then frames == [] && arriving == [] else HonestFrames(frames) && arriving != []
      ensures Valid() && (lastPacket <==> numChunks == 0)
    {
      CeilDivStep(packetLength, chunkSize);
      assert InPacket() == packetLength && checksums[0..] == checksums;
      hide HonestFrames, Sums;
    }

    /** Begins the next packet: its header, then its checksums. */
    method StartPacket() returns (err: Error)
      requires Valid() && !lastPacket && chunkIndex == numChunks
      modifies this`frames, this`arriving, this`ended, this`broken, this`checksums
      modifies this`packetLength, this`numChunks, this`chunkIndex, this`lastPacket
      ensures err in {Nil, EOF, Failed} && broken == (old(broken) || err == Failed)
      ensures err == EOF ==> Valid() && ended && Remaining() == old(Remaining())
      ensures err == Nil ==> Valid() && !ended && Remaining() == old(Remaining())
      ensures err == Nil ==> chunkIndex == 0 && (lastPacket <==> numChunks == 0)
      ensures err == Nil ==> frames == old(frames)[1..] && packetLength == |old(frames)[0].data|
      ensures err == Nil ==> (lastPacket <==> packetLength == 0)
      ensures old(ended) ==> err == EOF
    {
      err := ReadHeader();
      if err != Nil {
        return;
      }
      var f := frames[0];
      HonestHead(frames);
      assert arriving == [] && FrameData(frames) == f.data + FrameData(frames[1..]);
      assert arriving + FrameData(frames) == FrameData(frames);
      hide Valid, HonestFrames, FrameData, Sums, CeilDiv;
      frames, arriving, checksums := frames[1..], f.data, Sums(f.data, chunkSize, crc);
      packetLength, numChunks, chunkIndex, lastPacket := |f.data|, CeilDiv(|f.data|, chunkSize), 0, f.last;
      NewPacketIsValid();
    }

    /** Compares the checksum of `b` with the current slot. Past the checksums of the packet
        the source reads whatever the reused buffer holds there, or panics. */
    method ValidateChecksum(b: Bytes) returns (err: Error)
      ensures err in {Nil, Failed, Panic}
      ensures chunkIndex < |checksums| ==> err == if crc(b) == checksums[chunkIndex] then Nil else Failed
    {
      if chunkIndex < |checksums| {
        return if crc(b) == checksums[chunkIndex] then Nil else Failed;
      }
      var ok: bool, stale: bool := *, *;
      err := if ok then Nil else if stale then Failed else Panic;
    }

    /** Hands out buffered bytes. */
    method TakeBuffered(b: array<uint8>, lo: nat, hi: nat) returns (n: nat)
      requires Valid() && lo <= hi <= b.Length
      modifies this`chunk, b
      ensures Valid() && n == Min(|old(chunk)|, hi - lo) && b[..lo] == old(b[..lo])
      ensures n <= |old(Remaining())| && b[lo..lo + n] == old(Remaining())[..n]
      ensures Remaining() == old(Remaining())[n..] && chunk == old(chunk)[n..]
    {
      hide FrameData, HonestFrames, CeilDiv, Sums;
      n := Min(|chunk|, hi - lo);
      Store(b, lo, chunk[..n]);
      ghost var got := chunk[..n];
      chunk := chunk[n..];
      assert old(Remaining()) == got + Remaining();
      StoredSlice(b[..], old(b[..]), got, lo, lo + n);
    }

    /** Reads one chunk into the buffer and checks it. */
    method BufferChunk() returns (valid: bool, err: Error)
      requires Valid() && chunk == [] && (chunkIndex < numChunks || lastPacket)
      modifies this`arriving, this`ended, this`broken, this`chunk, this`chunkIndex
      ensures err in {Nil, EOF, Failed, Panic} && broken == (old(broken) || err == Failed)
      ensures err in {Nil, EOF} ==> Valid() && Remaining() == old(Remaining())
      ensures err == EOF ==> ended
      ensures err == Panic ==> old(lastPacket)
      ensures err == Nil && !old(lastPacket) ==> valid && |chunk| == Min(chunkSize, old(InPacket())) > 0
      ensures err == Nil && !old(ended) ==> !ended
      ensures old(ended) ==> ended
      ensures old(lastPacket) ==> chunk == []
    {
      hide FrameData, HonestFrames, CeilDiv, Sums;
      ghost var data := arriving;
      var k := Min(chunkSize, InPacket());
      if k > 0 {
        if !ended {
          CeilDivStep(|data|, chunkSize);
          FirstSum(data, chunkSize, crc);
          AfterChunks(data, chunkSize, crc, 1, k);
        }
        chunk, err := Receive(k);
        if err != Nil {
          return false, err;
        }
      }
      err := ValidateChecksum(chunk);
      if err != Nil {
        return false, if err == Panic then Panic else Nil;
      }
      assert (chunkIndex + 1) * chunkSize == chunkIndex * chunkSize + chunkSize;
      chunkIndex := chunkIndex + 1;
      valid := true;
    }

    /** A read of less than a chunk: buffers one and hands out its beginning. */
    method ReadSmall(b: array<uint8>, lo: nat, hi: nat) returns (n: nat, err: Error)
      requires Valid() && chunk == [] && lo <= hi <= b.Length && hi - lo < chunkSize
      requires chunkIndex < numChunks || lastPacket
      modifies this`arriving, this`ended, this`broken, this`chunk, this`chunkIndex, b
      ensures Delivered(old(Remaining()), b[..], old(b[..]), lo, hi, n, err)
      ensures err in {Nil, EOF} ==> Valid() && Remaining() == old(Remaining())[n..]
      ensures err == EOF ==> ended
      ensures broken == (old(broken) || err == Failed)
      ensures err == Nil && !old(ended) ==> !ended
      ensures old(ended) ==> ended
      ensures err == Nil ==> Serves(0, hi - lo, if lastPacket then 0 else old(InPacket()), chunkSize, n, |chunk|)
    {
      hide FrameData, HonestFrames, CeilDiv, Sums;
      if lastPacket {
        NothingDue();
      }
      var valid;
      valid, err := BufferChunk();
      if err != Nil || !valid {
        return 0, err;
      }
      n := TakeBuffered(b, lo, hi);
    }

    /** The first `count` chunks of the buffer have the checksums of the slots from `at` on. */
    predicate AllMatch(buffer: Bytes, at: nat, count: nat)
      reads this`checksums
    {
      forall i: nat :: i < count ==>
                         && i * chunkSize <= |buffer| && at + i < |checksums|
                         && crc(UnderTest(buffer, chunkSize, i)) == checksums[at + i]
    }

    lemma MatchOneMore(buffer: Bytes, at: nat, count: nat)
      requires AllMatch(buffer, at, count) && count * chunkSize <= |buffer| && at + count < |checksums|
      requires crc(UnderTest(buffer, chunkSize, count)) == checksums[at + count]
      ensures AllMatch(buffer, at, count + 1)
    {
      hide UnderTest;
    }

    /** Against the checksums of honest data, matching the slots is passing the test. */
    lemma MatchIsPass(buffer: Bytes, data: Bytes, at: nat, count: nat)
      requires chunkSize > 0 && at <= |checksums| && checksums[at..] == Sums(data, chunkSize, crc)
      ensures AllMatch(buffer, at, count) <==> AllPass(data, buffer, chunkSize, crc, count)
    {
      hide Sums, UnderTest;
      var sums := checksums[at..];
      if AllMatch(buffer, at, count) {
        forall i: nat | i < count
          ensures i * chunkSize <= |buffer| && ChunkPasses(data, buffer, chunkSize, crc, i)
        {
          assert crc(UnderTest(buffer, chunkSize, i)) == checksums[at + i] == sums[i];
        }
      }
      if AllPass(data, buffer, chunkSize, crc, count) {
        forall i: nat | i < count
          ensures i * chunkSize <= |buffer| && at + i < |checksums|
          ensures crc(UnderTest(buffer, chunkSize, i)) == checksums[at + i]
        {
          assert ChunkPasses(data, buffer, chunkSize, crc, i) && sums[i] == checksums[at + i];
        }
      }
    }

    lemma MismatchFails(buffer: Bytes, at: nat, count: nat, i: nat)
      requires i < count && i * chunkSize <= |buffer| && at + i < |checksums|
      requires crc(UnderTest(buffer, chunkSize, i)) != checksums[at + i]
      ensures !AllMatch(buffer, at, count)
    {
      hide UnderTest;
    }

    /** The checking loop of a large read. */
    method ValidateChunks(buffer: Bytes, count: nat) returns (err: Error)
      requires chunkSize > 0 && chunkIndex + count <= |checksums|
      requires count > 0 ==> (count - 1) * chunkSize <= |buffer|
      modifies this`chunkIndex
      ensures err in {Nil, Failed}
      ensures err == Nil ==> chunkIndex == old(chunkIndex) + count && AllMatch(buffer, old(chunkIndex), count)
      ensures err == Failed ==> !AllMatch(buffer, old(chunkIndex), count)
    {
      var i := 0;
      assert AllMatch(buffer, chunkIndex, 0);
      hide AllMatch;
      while i < count
        invariant i <= count && chunkIndex == old(chunkIndex) + i && AllMatch(buffer, old(chunkIndex), i)
      {
        ProductGrows(i, count - 1, chunkSize);
        var chunkOff := i * chunkSize;
        var chunkEnd := chunkOff + chunkSize;
        if chunkEnd >= |buffer| {
          chunkEnd := |buffer|;
        }
        err := ValidateChecksum(buffer[chunkOff..chunkEnd]);
        if err != Nil {
          MismatchFails(buffer, old(chunkIndex), count, i);
          return;
        }
        MatchOneMore(buffer, old(chunkIndex), i);
        chunkIndex := chunkIndex + 1;
        i := i + 1;
      }
      err := Nil;
    }

    /** How much a large read of `len` bytes takes: whole chunks, or the rest of the packet. */
    method PlanLarge(len: nat) returns (chunksToRead: int, amountToRead: int)
      requires Valid() && chunkSize <= len && (chunkIndex < numChunks || lastPacket)
      ensures lastPacket ==> amountToRead == InPacket() <= 0 && chunksToRead + chunkIndex == 0
      ensures !lastPacket ==> LargePlan(len, InPacket(), chunkSize, chunksToRead, amountToRead)
      ensures !lastPacket ==> amountToRead == LargeAmount(len, InPacket(), chunkSize)
    {
      hide Sums, HonestFrames;
      var remainingInPacket := InPacket();
      if len > remainingInPacket {
        chunksToRead := numChunks - chunkIndex;
        amountToRead := remainingInPacket;
        if !lastPacket {
          CeilBounds(remainingInPacket, chunkSize);
        }
      } else {
        chunksToRead := len / chunkSize;
        amountToRead := chunksToRead * chunkSize;
        WholeChunks(len, remainingInPacket, chunkSize);
      }
    }

    /** What a large read needs of the packet it reads from, of which `data` is left from chunk
        `at` on. */
    ghost predicate InMiddle(at: nat, data: Bytes)
      reads this`lastPacket, this`ended, this`numChunks, this`frames, this`packetLength, this`checksums
    {
      && chunkSize > 0 && !lastPacket && !ended && at < numChunks && HonestFrames(frames)
      && |data| == packetLength - at * chunkSize > 0 && numChunks - at == CeilDiv(|data|, chunkSize)
      && at <= |checksums| && checksums[at..] == Sums(data, chunkSize, crc)
    }

    lemma ValidInMiddle()
      requires Valid() && !lastPacket && !ended && chunkIndex < numChunks
      ensures InMiddle(chunkIndex, arriving) && |arriving| == InPacket()
    {
    }

    lemma ValidAfterLarge(at: nat, data: Bytes, len: nat, chunks: nat, amount: nat)
      requires InMiddle(at, data) && LargePlan(len, |data|, chunkSize, chunks, amount)
      requires chunkIndex == at + chunks && arriving == data[amount..]
      ensures Valid()
    {
      AfterChunks(data, chunkSize, crc, chunks, amount);
      SumsLength(data, chunkSize, crc);
      hide Sums, CeilDiv, HonestFrames;
      assert (at + chunks) * chunkSize == at * chunkSize + chunks * chunkSize;
      assert checksums[at + chunks..] == checksums[at..][chunks..];
    }

    lemma SlotsSuffice(at: nat, data: Bytes, len: nat, chunks: nat, amount: nat)
      requires InMiddle(at, data) && LargePlan(len, |data|, chunkSize, chunks, amount)
      ensures at + chunks <= |checksums| && (chunks - 1) * chunkSize <= len && chunks > 0
    {
      SumsLength(data, chunkSize, crc);
    }

    /** Checks and counts the chunks of a large read that got all it asked for. */
    method AcceptLarge(buffer: Bytes, ghost data: Bytes, chunksToRead: nat, ghost amountToRead: nat) returns (err: Error)
      requires InMiddle(chunkIndex, data)
      requires LargePlan(|buffer|, |data|, chunkSize, chunksToRead, amountToRead)
      requires buffer[..amountToRead] == data[..amountToRead] && arriving == data[amountToRead..]
      modifies this`chunkIndex, this`rejected
      ensures err in {Nil, Failed} && rejected == (old(rejected) || err == Failed)
      ensures err == Nil ==> Valid()
      ensures err == Nil <==> AllPass(data, buffer, chunkSize, crc, chunksToRead)
      ensures err == Failed ==> amountToRead == |data| < |buffer| && |data| % chunkSize != 0
    {
      PlanFits(|buffer|, |data|, chunkSize, chunksToRead, amountToRead);
      SlotsSuffice(chunkIndex, data, |buffer|, chunksToRead, amountToRead);
      WhenPlanIsWhole(|buffer|, |data|, chunkSize, chunksToRead, amountToRead);
      if amountToRead == chunksToRead * chunkSize {
        WholeChunksPass(data, buffer, chunkSize, crc, chunksToRead);
      }
      MatchIsPass(buffer, data, chunkIndex, chunksToRead);
      hide AllPass, AllMatch, Valid;
      err := ValidateChunks(buffer, chunksToRead);
      rejected := rejected || err != Nil;
      if err == Nil {
        ValidAfterLarge(old(chunkIndex), data, |buffer|, chunksToRead, amountToRead);
      }
    }

    /** A read of at least a chunk goes straight into the caller's buffer. */
    method ReadLarge(b: array<uint8>, lo: nat, hi: nat) returns (n: nat, err: Error)
      requires Valid() && chunk == [] && lo + chunkSize <= hi <= b.Length
      requires chunkIndex < numChunks || lastPacket
      modifies this`arriving, this`ended, this`broken, this`rejected, this`chunkIndex, b
      ensures Delivered(old(Remaining()), b[..], old(b[..]), lo, hi, n, err)
      ensures err in {Nil, EOF} ==> Valid() && Remaining() == old(Remaining())[n..]
      ensures err == EOF ==> ended || lastPacket
      ensures err == Failed ==> broken || ended || rejected
      ensures rejected && !old(rejected) ==> StaleChunk(hi - lo, old(InPacket()), chunkSize)
      ensures err == Nil && !old(ended) ==> !ended
      ensures old(ended) ==> ended
      ensures err == Nil ==> !lastPacket && n == LargeAmount(hi - lo, old(InPacket()), chunkSize)
    {
      hide Sums, HonestFrames, CeilDiv, FrameData, AllPass, LargeAmount, LargePlan, Delivered, InPacket, InMiddle;
      var chunksToRead, amountToRead := PlanLarge(hi - lo);
      if !lastPacket {
        PlanFits(hi - lo, InPacket(), chunkSize, chunksToRead, amountToRead);
        if !ended {
          ValidInMiddle();
        }
      }
      if amountToRead < 0 {
        NothingDue();
        NothingDelivered(Remaining(), b[..], lo, hi, Panic);
        return 0, Panic;
      }
      ghost var data := arriving;
      var got;
      got, err := Receive(amountToRead);
      Store(b, lo, got);
      n := |got|;
      if err != Nil {
        err := if err == EOF && n > 0 then Failed else err;
      } else if lastPacket {
        err := EOF;
      } else {
        StoredSlice(b[..], old(b[..]), got, lo, hi);
        assert b[..][lo..hi] == b[lo..hi];
        assert data[..amountToRead] == got && data[amountToRead..] == arriving;
        err := AcceptLarge(b[lo..hi], data, chunksToRead, amountToRead);
      }
      assert old(Remaining()) == got + (arriving + FrameData(frames));
      StoredIsDelivered(old(Remaining()), old(b[..]), got, arriving + FrameData(frames), lo, hi, err);
    }

    /** A read once a packet has begun. */
    method ReadFromPacket(b: array<uint8>, lo: nat, hi: nat) returns (n: nat, err: Error)
      requires Valid() && lo <= hi <= b.Length && (chunkIndex < numChunks || lastPacket)
      modifies this`arriving, this`ended, this`broken, this`rejected, this`chunk, this`chunkIndex, b
      ensures Delivered(old(Remaining()), b[..], old(b[..]), lo, hi, n, err)
      ensures err == Failed ==> broken || ended || rejected
      ensures rejected && !old(rejected) ==> old(chunk) == [] && StaleChunk(hi - lo, old(InPacket()), chunkSize)
      ensures err in {Nil, EOF} ==> Valid() && Remaining() == old(Remaining())[n..]
      ensures err == EOF && !ended ==> lastPacket && chunk == old(chunk)
      ensures err == Nil && !old(ended) ==> !ended
      ensures old(ended) ==> ended
      ensures err == Nil ==> Serves(old(|chunk|), hi - lo, if lastPacket then 0 else old(InPacket()), chunkSize, n, |chunk|)
      ensures old(chunk) != [] ==> err == Nil && chunkIndex == old(chunkIndex)
      ensures old(chunk) == [] && chunkSize <= hi - lo ==> chunk == []
    {
      hide Sums, HonestFrames, CeilDiv, FrameData;
      if |chunk| > 0 {
        n := TakeBuffered(b, lo, hi);
        err := Nil;
      } else if hi - lo < chunkSize {
        n, err := ReadSmall(b, lo, hi);
      } else {
        n, err := ReadLarge(b, lo, hi);
      }
    }

    method Read(b: array<uint8>, lo: nat, hi: nat) returns (n: nat, err: Error)
      requires Valid() && lo <= hi <= b.Length
      modifies this, b
      ensures Delivered(old(Remaining()), b[..], old(b[..]), lo, hi, n, err)
      ensures err in {Nil, EOF} ==> Valid() && Remaining() == old(Remaining())[n..]
      ensures err == Nil ==> Serves(old(|chunk|), hi - lo, old(Left()), chunkSize, n, |chunk|)
      ensures err == Nil && !old(lastPacket) ==>
                frames == if old(chunkIndex == numChunks) then old(frames)[1..] else old(frames)
      ensures err == Nil && old(chunk) != [] ==> chunkIndex == if old(chunkIndex == numChunks) then 0 else old(chunkIndex)
      ensures err == Nil && !old(ended) ==> !ended
      ensures old(ended) ==> ended
      ensures old(chunk) == [] && chunkSize <= hi - lo ==> chunk == []
      ensures old(chunk) != [] && !old(lastPacket) && err == EOF ==> ended
      ensures err == Nil && old(Left()) > 0 ==> !lastPacket
      // Unless the connection has ended, an EOF leaves just the buffered bytes undelivered,
      // and once the last packet has begun those are no longer handed out.
      ensures err == EOF && !ended ==> lastPacket && Remaining() == chunk == old(chunk)
      ensures old(lastPacket && chunkIndex == numChunks) ==> n == 0 && err == EOF
      // A failure has its cause in the connection, or in a partial chunk that was checked
      // together with what the buffer held behind it.
      ensures err == Failed ==> broken || ended || rejected
      ensures rejected && !old(rejected) ==> old(chunk) == [] && StaleChunk(hi - lo, old(Left()), chunkSize)
    {
      hide Sums, HonestFrames, CeilDiv, FrameData, Serves, LargeAmount, Delivered, Remaining;
      if chunkIndex == numChunks {
        if lastPacket {
          NothingDue();
          NothingDelivered(Remaining(), b[..], lo, hi, EOF);
          return 0, EOF;
        }
        err := StartPacket();
        if err != Nil {
          NothingDelivered(old(Remaining()), b[..], lo, hi, err);
          return 0, err;
        }
      }
      n, err := ReadFromPacket(b, lo, hi);
      if err == EOF && lastPacket {
        NothingDue();
      }
    }
  }
}
