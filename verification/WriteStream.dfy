/**
 The write stream as its caller sees it (internal/rpc/block_write_stream.go): one
 object whose calls run one after the other. The ack loop is run when finish waits for
 it, which is sound because no call can see anything of it earlier: the contracts of Write,
 Flush and Finish below are what WriteCalls.CallsAreSequential proves of the same calls in
 every interleaving.
 */
module WriteStream {
  import opened Common
  import opened Packets
  import opened Acks

  /** `binary.BigEndian.PutUint32(buf[at:], x)`. */
  method PutUint32(a: array<uint8>, at: nat, x: uint32)
    requires at + 4 <= a.Length
    modifies a
    ensures a[..] == old(a[..at]) + BigEndian32(x) + old(a[at + 4..])
  {
    var b := BigEndian32(x);
    a[at], a[at + 1], a[at + 2], a[at + 3] := b[0], b[1], b[2], b[3];
  }

  /** The loop of makePacket that fills in the checksum of each chunk. */
  method FillChecksums(data: Bytes) returns (checksums: Bytes)
    ensures checksums == ChecksumsOf(data)
  {
    var numChunks := CeilDiv(|data|, CHUNK_SIZE);
    var a := new uint8[numChunks * 4];
    var i := 0;
    while i < numChunks
      invariant i <= numChunks
      invariant a[..4 * i] == Checksums(data, i)
    {
      var chunkOff := i * CHUNK_SIZE;
      var chunkEnd := chunkOff + CHUNK_SIZE;
      if chunkEnd >= |data| {
        chunkEnd := |data|;
      }
      PutUint32(a, i * 4, Crc32(data[chunkOff..chunkEnd]));
      assert a[..4 * i + 4] == Checksums(data, i) + BigEndian32(Crc32(Chunk(data, i)));
      i := i + 1;
    }
    checksums := a[..];
    assert checksums == a[..4 * numChunks];
  }

  class BlockWriteStream {
    const base: nat
    var buf: Bytes
    var offset: nat
    var seqno: int
    var closed: bool

    var packets: seq<Packet>           // data packets that went into the channel
    var lastSent: bool                 // so did the end-of-block packet
    var read: seq<Ack>                 // acks the ack loop read
    var acked: nat                     // packets it matched
    var ackError: Option<AckFailure>
    var acksDone: bool                 // the ack loop has returned
    var accepted: Bytes                // all bytes Write took
    var writeErrors: nat               // connection writes that failed

    function State(): Core
      reads this
    {
      Core(buf, offset, seqno, packets)
    }

    function Enqueued(): seq<Packet>
      reads this
    {
      if lastSent then packets + [LastPacket(State())] else packets
    }

    ghost predicate Valid()
      reads this
    {
      && Packetised(base, accepted, State())
      && (acksDone <==> closed)
      && (!closed ==> !lastSent && ackError == None)
      && (lastSent ==> buf == [])
      && (closed ==> AckOutcome(Enqueued(), read, acked, ackError))
    }

    /** Data of the packets that the datanode has acknowledged. */
    function AckedData(): Bytes
      reads this
    {
      if acked <= |Enqueued()| then DataOf(Enqueued()[..acked]) else []
    }

    constructor (offset: nat)
      ensures Valid() && base == offset && State() == Fresh(offset)
      ensures !closed && accepted == [] && writeErrors == 0
    {
      base := offset;
      buf, this.offset, seqno, closed := [], offset, 1, false;
      packets, lastSent, read, acked, ackError, acksDone, accepted := [], false, [], 0, None, false, [];
      writeErrors := 0;
    }

    predicate AckErrorVisible()
      reads this
    {
      acksDone && ackError.Some?
    }

    method MakePacket() returns (p: Packet)
      requires buf != []
      modifies this`buf
      ensures p == NextPacket(old(State()))
      ensures buf == old(buf)[|p.data|..]
    {
      var packetLength := PACKET_SIZE;
      if |buf| < PACKET_SIZE {
        packetLength := |buf|;
      }
      var alignment := offset % CHUNK_SIZE;
      if alignment > 0 && packetLength > CHUNK_SIZE - alignment {
        packetLength := CHUNK_SIZE - alignment;
      }
      var data := buf[..packetLength];
      buf := buf[packetLength..];
      var checksums := FillChecksums(data);
      p := Packet(seqno, offset, false, checksums, data);
    }

    /** Any of the three connection writes may fail. */
    method WritePacket(p: Packet) returns (err: Error)
      modifies this`writeErrors
      ensures err in {Nil, Failed} && writeErrors == old(writeErrors) + if err == Failed then 1 else 0
    {
      var ok: bool := *;
      if ok {
        return Nil;
      }
      writeErrors := writeErrors + 1;
      err := Failed;
    }

    /** The body of the flush loop: make a packet, send it into the channel, write it. */
    method EmitPacket() returns (err: Error)
      requires buf != []
      modifies this`buf, this`packets, this`offset, this`seqno, this`writeErrors
      ensures State() == Emit(old(State()))
      ensures err in {Nil, Failed} && writeErrors == old(writeErrors) + if err == Failed then 1 else 0
    {
      var packet := MakePacket();
      packets := packets + [packet];
      offset := offset + |packet.data|;
      seqno := seqno + 1;
      err := WritePacket(packet);
    }

    /** The flush loop of an open stream. */
    method FlushOpen(force: bool) returns (err: Error)
      requires Packetised(base, accepted, State())
      modifies this`buf, this`packets, this`offset, this`seqno, this`writeErrors
      ensures Packetised(base, accepted, State()) && FlushOutcome(old(State()), State(), force, err)
      ensures writeErrors == old(writeErrors) + if err == Failed then 1 else 0
    {
      ghost var c := State();
      assert FlushReaches(c, c, force);
      hide Packetised, FlushReaches, NextPacket;
      while |buf| > 0 && (force || |buf| >= PACKET_SIZE)
        invariant Packetised(base, accepted, State())
        invariant FlushReaches(c, State(), force) && writeErrors == old(writeErrors)
        decreases |buf|
      {
        ghost var d := State();
        EmitKeepsPacketised(base, accepted, d);
        FlushReachesEmit(c, d, force);
        FlushReachesShrinks(c, d, force);
        err := EmitPacket();
        if err != Nil {
          return;
        }
      }
      err := Nil;
    }

    /** Sending on the closed channel panics; that needs a finish that failed before it
        had emptied the buffer. */
    method Flush(force: bool) returns (err: Error)
      requires Valid()
      modifies this`buf, this`packets, this`offset, this`seqno, this`writeErrors
      ensures Valid()
      ensures writeErrors == old(writeErrors) + if !closed && err == Failed then 1 else 0
      ensures err == Nil ==> if force then buf == [] else |buf| < PACKET_SIZE
      ensures !closed ==> FlushOutcome(old(State()), State(), force, err)
      ensures closed ==> State() == old(State()) &&
                         err == if ackError.Some? then Failed else if CanEmit(State(), force) then Panic else Nil
    {
      if AckErrorVisible() {
        return Failed;
      } else if closed {
        return if CanEmit(State(), force) then Panic else Nil;
      }
      err := FlushOpen(force);
    }

    method Write(b: Bytes) returns (n: nat, err: Error)
      requires Valid()
      modifies this
      ensures Valid() && closed == old(closed) && n <= |b| && accepted == old(accepted) + b[..n]
      ensures closed ==> n == 0 && err == ClosedPipe && State() == old(State())
      ensures !closed ==> n == |b| && FlushOutcome(old(State()).(buf := old(buf) + b), State(), false, err)
      ensures err == Nil ==> |buf| < PACKET_SIZE
      ensures writeErrors == old(writeErrors) + if err == Failed then 1 else 0
      ensures ackError == old(ackError)
    {
      if closed || AckErrorVisible() {
        return 0, if closed then ClosedPipe else Failed;
      }
      AcceptKeepsPacketised(base, accepted, State(), b);
      buf, accepted := buf + b, accepted + b;
      n := |b|;
      assert b[..n] == b;
      err := Flush(false);
    }

    method Finish() returns (err: Error)
      requires Valid()
      modifies this
      ensures Valid() && closed && accepted == old(accepted)
      ensures old(closed) ==> err == Nil && State() == old(State()) && lastSent == old(lastSent) && acked == old(acked)
                              && ackError == old(ackError) && writeErrors == old(writeErrors)
      // It fails exactly if a connection write failed or an ack was bad.
      ensures !old(closed) ==> writeErrors >= old(writeErrors)
      ensures !old(closed) ==> (err == Failed <==> writeErrors > old(writeErrors) || ackError.Some?)
      ensures !old(closed) ==> FinishOutcome(old(State()), State(), lastSent, read, acked, ackError, err)
    {
      hide FlushReaches, Packetised;
      if closed {
        return Nil;
      }
      if AckErrorVisible() {
        err := Failed;
      } else {
        err := Flush(true);
      }
      if err == Nil {
        lastSent := true;
        err := WritePacket(LastPacket(State()));
      }
      closed := true;
      // Wait for the ack loop. What the datanode answers is up to it.
      var acks: seq<Ack> := *;
      acked, read, ackError := AckPackets(Enqueued(), acks);
      acksDone := true;
      if err == Nil && ackError.Some? {
        err := Failed;
      }
    }

    /** A first finish that returned nil: everything handed to Write is acknowledged. */
    lemma FinishedIsDurable(before: Core)
      requires Valid() && FinishOutcome(before, State(), lastSent, read, acked, ackError, Nil)
      ensures AckedData() == accepted && acked == |Enqueued()|
    {
      DataOfSnoc(packets, LastPacket(State()));
      assert Enqueued()[..acked] == Enqueued();
    }
  }
}
