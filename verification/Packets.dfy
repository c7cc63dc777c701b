/**
 Packetisation of a block (internal/rpc/block_write_stream.go): how buffered
 bytes are cut into chunk-aligned packets with one CRC per chunk.
 */
module Packets {
  import opened Common

  const PACKET_SIZE := 65536
  const CHUNK_SIZE := 512

  datatype Packet = Packet(seqno: int, offset: nat, last: bool, checksums: Bytes, data: Bytes)

  /** The sequential part of a write stream. `sent` records the data packets that
      went into the channel, oldest first. */
  datatype Core = Core(buf: Bytes, offset: nat, seqno: int, sent: seq<Packet>)

  function Fresh(base: nat): Core {
    Core([], base, 1, [])
  }

  function PacketLength(buffered: nat, offset: nat): (n: nat)
    ensures n <= buffered && n <= PACKET_SIZE
    ensures buffered > 0 ==> n > 0
  {
    var n := Min(buffered, PACKET_SIZE);
    var alignment := offset % CHUNK_SIZE;
    if alignment > 0 && n > CHUNK_SIZE - alignment then CHUNK_SIZE - alignment else n
  }

  /** The bytes of `data` that checksum slot i covers. */
  function Chunk(data: Bytes, i: nat): Bytes
    requires i < CeilDiv(|data|, CHUNK_SIZE)
  {
    data[i * CHUNK_SIZE..Min(i * CHUNK_SIZE + CHUNK_SIZE, |data|)]
  }

  function Checksums(data: Bytes, n: nat): (sums: Bytes)
    requires n <= CeilDiv(|data|, CHUNK_SIZE)
    ensures |sums| == 4 * n
  {
    if n == 0 then [] else Checksums(data, n - 1) + BigEndian32(Crc32(Chunk(data, n - 1)))
  }

  function ChecksumsOf(data: Bytes): (sums: Bytes)
    ensures |sums| == 4 * CeilDiv(|data|, CHUNK_SIZE)
  {
    Checksums(data, CeilDiv(|data|, CHUNK_SIZE))
  }

  lemma {:induction false} ChecksumSlot(data: Bytes, n: nat, i: nat)
    requires i < n <= CeilDiv(|data|, CHUNK_SIZE)
    ensures Checksums(data, n)[4 * i..4 * i + 4] == BigEndian32(Crc32(Chunk(data, i)))
  {
    if i < n - 1 {
      ChecksumSlot(data, n - 1, i);
      assert Checksums(data, n)[..4 * (n - 1)] == Checksums(data, n - 1);
      assert Checksums(data, n)[4 * i..4 * i + 4] == Checksums(data, n - 1)[4 * i..4 * i + 4];
    }
  }

  function NextPacket(c: Core): Packet
    requires c.buf != []
  {
    var data := c.buf[..PacketLength(|c.buf|, c.offset)];
    Packet(c.seqno, c.offset, false, ChecksumsOf(data), data)
  }

  /** The data-free marker that ends a block. */
  function LastPacket(c: Core): Packet {
    Packet(c.seqno, c.offset, true, [], [])
  }

  predicate CanEmit(c: Core, force: bool) {
    |c.buf| > 0 && (force || |c.buf| >= PACKET_SIZE)
  }

  /** One iteration of the flush loop. */
  function Emit(c: Core): (d: Core)
    requires c.buf != []
    ensures |d.buf| < |c.buf|
  {
    var p := NextPacket(c);
    Core(c.buf[|p.data|..], c.offset + |p.data|, c.seqno + 1, c.sent + [p])
  }

  /** d is reached from c by some number of iterations of the flush loop. */
  ghost predicate FlushReaches(c: Core, d: Core, force: bool)
    decreases |c.buf|
  {
    c == d || (CanEmit(c, force) && FlushReaches(Emit(c), d, force))
  }

  lemma {:induction false} FlushReachesEmit(c: Core, d: Core, force: bool)
    requires FlushReaches(c, d, force) && CanEmit(d, force)
    ensures FlushReaches(c, Emit(d), force)
    decreases |c.buf|
  {
    if c == d {
      assert FlushReaches(Emit(c), Emit(d), force);
    } else {
      FlushReachesEmit(Emit(c), d, force);
    }
  }

  lemma {:induction false} FlushReachesShrinks(c: Core, d: Core, force: bool)
    requires FlushReaches(c, d, force)
    ensures |d.buf| <= |c.buf|
    decreases |c.buf|
  {
    if c != d {
      FlushReachesShrinks(Emit(c), d, force);
    }
  }

  /** What one call of flush may do: return nil with nothing left to emit, or fail
      after at least one packet went into the channel. */
  ghost predicate FlushOutcome(c: Core, d: Core, force: bool, err: Error) {
    && FlushReaches(c, d, force)
    && err in {Nil, Failed}
    && (err == Nil ==> !CanEmit(d, force))
    && (err == Failed ==> d != c)
  }

  function DataOf(ps: seq<Packet>): Bytes {
    if ps == [] then [] else DataOf(ps[..|ps| - 1]) + ps[|ps| - 1].data
  }

  lemma DataOfSnoc(ps: seq<Packet>, p: Packet)
    ensures DataOf(ps + [p]) == DataOf(ps) + p.data
  {
    assert (ps + [p])[..|ps|] == ps;
  }

  /** A data packet either starts on a chunk boundary of the block or stays inside
      the chunk it starts in. */
  predicate Aligned(p: Packet) {
    p.offset % CHUNK_SIZE == 0 || p.offset % CHUNK_SIZE + |p.data| <= CHUNK_SIZE
  }

  predicate WellFormed(p: Packet) {
    && !p.last
    && 0 < |p.data| <= PACKET_SIZE
    && Aligned(p)
    && p.checksums == ChecksumsOf(p.data)
  }

  /** The packets of a stream that started at block offset `base`: numbered from
      one, contiguous, and each well formed. */
  ghost predicate Numbered(base: nat, ps: seq<Packet>) {
    ps == [] ||
    var init, p := ps[..|ps| - 1], ps[|ps| - 1];
    Numbered(base, init) && WellFormed(p) && p.seqno == |ps| && p.offset == base + |DataOf(init)|
  }

  /** The same, packet by packet: seqnos count up from one and offsets are prefix sums. */
  lemma {:induction false} NumberedAt(base: nat, ps: seq<Packet>, i: nat)
    requires Numbered(base, ps) && i < |ps|
    ensures WellFormed(ps[i]) && ps[i].seqno == i + 1 && ps[i].offset == base + |DataOf(ps[..i])|
    decreases |ps|
  {
    if i < |ps| - 1 {
      NumberedAt(base, ps[..|ps| - 1], i);
      assert ps[..|ps| - 1][..i] == ps[..i];
    }
  }

  /** No byte handed to the stream is lost, repeated or reordered. */
  ghost predicate Packetised(base: nat, accepted: Bytes, c: Core) {
    && DataOf(c.sent) + c.buf == accepted
    && c.seqno == |c.sent| + 1
    && c.offset == base + |DataOf(c.sent)|
    && Numbered(base, c.sent)
  }

  lemma NextPacketWellFormed(c: Core)
    requires c.buf != []
    ensures WellFormed(NextPacket(c))
  {
  }

  /** No packet is smaller than it has to be: it takes the whole buffer, or has full size, or
      completes the chunk it started in the middle of. */
  lemma NextPacketIsMaximal(c: Core)
    requires c.buf != []
    ensures var p := NextPacket(c);
            || p.data == c.buf
            || (p.offset % CHUNK_SIZE == 0 && |p.data| == PACKET_SIZE && p.data < c.buf)
            || (p.offset % CHUNK_SIZE > 0 && (p.offset + |p.data|) % CHUNK_SIZE == 0 && |p.data| < CHUNK_SIZE && p.data < c.buf)
  {
    var n := PacketLength(|c.buf|, c.offset);
    if n == |c.buf| {
      assert c.buf[..n] == c.buf;
    }
  }

  lemma NumberedSnoc(base: nat, ps: seq<Packet>, p: Packet)
    requires Numbered(base, ps)
    requires WellFormed(p) && p.seqno == |ps| + 1 && p.offset == base + |DataOf(ps)|
    ensures Numbered(base, ps + [p])
  {
    assert (ps + [p])[..|ps|] == ps;
  }

  lemma EmitKeepsPacketised(base: nat, accepted: Bytes, c: Core)
    requires Packetised(base, accepted, c) && c.buf != []
    ensures Packetised(base, accepted, Emit(c))
  {
    var p := NextPacket(c);
    NextPacketWellFormed(c);
    NumberedSnoc(base, c.sent, p);
    DataOfSnoc(c.sent, p);
    assert c.buf == p.data + c.buf[|p.data|..];
  }

  /** Packetisation conserves data over any number of flush iterations. */
  lemma {:induction false} FlushKeepsPacketised(base: nat, accepted: Bytes, c: Core, d: Core, force: bool)
    requires Packetised(base, accepted, c) && FlushReaches(c, d, force)
    ensures Packetised(base, accepted, d)
    decreases |c.buf|
  {
    if c != d {
      EmitKeepsPacketised(base, accepted, c);
      FlushKeepsPacketised(base, accepted, Emit(c), d, force);
    }
  }

  lemma AcceptKeepsPacketised(base: nat, accepted: Bytes, c: Core, b: Bytes)
    requires Packetised(base, accepted, c)
    ensures Packetised(base, accepted + b, c.(buf := c.buf + b))
  {
    assert DataOf(c.sent) + (c.buf + b) == accepted + b;
  }

  /** Bytes of packet p that lie in chunk number `chunk` of the block. */
  function BytesInBlockChunk(p: Packet, chunk: nat): Bytes
    requires p.offset < (chunk + 1) * CHUNK_SIZE && chunk * CHUNK_SIZE < p.offset + |p.data|
  {
    var lo := if chunk * CHUNK_SIZE < p.offset then 0 else chunk * CHUNK_SIZE - p.offset;
    var hi := Min((chunk + 1) * CHUNK_SIZE - p.offset, |p.data|);
    p.data[lo..hi]
  }

  /** A packet carries one checksum for each chunk of the block that it touches, and
      slot i is the CRC of exactly the packet's bytes in the i-th of those chunks. */
  lemma ChecksumPerBlockChunk(p: Packet, i: nat)
    requires WellFormed(p)
    ensures |p.checksums| == 4 * ((p.offset + |p.data| - 1) / CHUNK_SIZE - p.offset / CHUNK_SIZE + 1)
    ensures 4 * i < |p.checksums| ==>
              && p.offset < (p.offset / CHUNK_SIZE + i + 1) * CHUNK_SIZE
              && (p.offset / CHUNK_SIZE + i) * CHUNK_SIZE < p.offset + |p.data|
              && p.checksums[4 * i..4 * i + 4]
                 == BigEndian32(Crc32(BytesInBlockChunk(p, p.offset / CHUNK_SIZE + i)))
  {
    if 4 * i < |p.checksums| {
      ChecksumSlot(p.data, CeilDiv(|p.data|, CHUNK_SIZE), i);
    }
  }
}
