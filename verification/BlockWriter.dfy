/**
 Writing one block (internal/rpc/block_writer.go): capping the block at its size,
 connecting lazily, and keeping the write offset.
 */
module BlockWriters {
  import opened Common
  import opened WriteStream

  /** The namenode's handle on a block; its length is updated in place when the block is
      finalized, and requests built later read the updated length. */
  class ExtendedBlock {
    const id: int
    var numBytes: nat

    constructor (id: int, numBytes: nat)
      ensures this.id == id && this.numBytes == numBytes
    {
      this.id, this.numBytes := id, numBytes;
    }
  }

  class BlockWriter {
    const block: ExtendedBlock
    const blockSize: int
    const start: nat                   // length of the block before this writer, when appending
    var offset: nat
    var stream: BlockWriteStream?
    var closed: bool
    var dialErrors: nat                // attempts to connect that failed

    /** How often something went wrong outside: a dial or a write failed, or an ack was bad. */
    function Faults(): nat
      reads this, stream
    {
      dialErrors + if stream == null then 0 else stream.writeErrors + if stream.ackError.Some? then 1 else 0
    }

    ghost predicate Valid()
      reads this, stream
    {
      && (stream == null ==> offset == start)
      && (stream != null ==> stream.Valid() && stream.base == start && offset == stream.offset + |stream.buf|)
    }

    function Accepted(): Bytes
      reads this, stream
    {
      if stream == null then [] else stream.accepted
    }

    function AckedData(): Bytes
      reads this, stream
    {
      if stream == null then [] else stream.AckedData()
    }

    /** No finish has been tried yet. */
    predicate Unfinished()
      reads this, stream
    {
      stream == null || !stream.closed
    }

    constructor (block: ExtendedBlock, blockSize: int, offset: nat)
      ensures Valid() && this.block == block && this.blockSize == blockSize && start == this.offset == offset
      ensures stream == null && !closed && Faults() == 0
    {
      this.block, this.blockSize, this.offset, start := block, blockSize, offset, offset;
      stream, closed, dialErrors := null, false, 0;
    }

    /** The write offset is where the block really ends: its length before this writer
        plus every byte accepted since, whatever went wrong on the way. */
    lemma OffsetIsLength()
      requires Valid()
      ensures offset == start + |Accepted()|
    {
    }

    /** How many bytes of a write of `len` bytes still fit into the block. */
    function Fits(len: nat): (n: nat)
      reads this
      ensures n <= len
    {
      if offset >= blockSize then 0 else Min(len, blockSize - offset)
    }

    method ConnectNext() returns (err: Error)
      requires Valid() && stream == null
      modifies this`stream, this`dialErrors
      ensures Valid() && err in {Nil, Failed} && Faults() == old(Faults()) + if err == Failed then 1 else 0
      ensures err == Nil ==> fresh(stream) && !stream.closed && stream.accepted == []
      ensures err != Nil ==> stream == null
    {
      var ok: bool := *;
      if !ok {
        dialErrors := dialErrors + 1;
        return Failed;
      }
      stream := new BlockWriteStream(offset);
      err := Nil;
    }

    method Write(b: Bytes) returns (n: nat, err: Error)
      requires Valid()
      modifies this`offset, this`stream, this`dialErrors, stream
      ensures Valid() && n <= |b|
      ensures stream != old(stream) ==> old(stream) == null && fresh(stream)
      ensures Accepted() == old(Accepted()) + b[..n] && offset == old(offset) + n
      ensures Unfinished() == old(Unfinished())
      ensures err in {Nil, EndOfBlock, Failed, ClosedPipe} && (err == ClosedPipe ==> !old(Unfinished()))
      ensures Faults() == old(Faults()) + if err == Failed then 1 else 0
      ensures n == old(Fits(|b|)) || (n == 0 && err in {Failed, ClosedPipe})
      ensures err == Nil ==> old(offset) < blockSize && offset <= blockSize && n == |b|
      ensures old(offset) >= blockSize ==> err == EndOfBlock
      ensures err == EndOfBlock ==> old(offset) >= blockSize || (offset == blockSize && n < |b|)
    {
      var blockFull := false;
      var c := b;
      if offset >= blockSize {
        return 0, EndOfBlock;
      } else if offset + |b| > blockSize {
        blockFull := true;
        c := b[..blockSize - offset];
      }
      if stream == null {
        err := ConnectNext();
        if err != Nil {
          return 0, err;
        }
      }
      OffsetIsLength();
      n, err := stream.Write(c);
      assert b[..n] == c[..n];
      offset := offset + n;
      if err == Nil && blockFull {
        err := EndOfBlock;
      }
    }

    method Flush() returns (err: Error)
      requires Valid()
      modifies stream
      ensures Valid() && Accepted() == old(Accepted()) && Unfinished() == old(Unfinished())
      ensures err == Nil && stream != null ==> stream.buf == []
      ensures Unfinished() ==> err in {Nil, Failed} && Faults() == old(Faults()) + if err == Failed then 1 else 0
      ensures Faults() >= old(Faults())
    {
      if stream != null {
        OffsetIsLength();
        err := stream.Flush(true);
      } else {
        err := Nil;
      }
    }

    /** A Close that returns nil has an ack for every byte of the block, provided it is the
        first attempt to finish. */
    method Close() returns (err: Error)
      requires Valid()
      modifies this`closed, stream
      ensures Valid() && closed && Accepted() == old(Accepted()) && err in {Nil, Failed}
      ensures err == Nil && old(Unfinished()) ==> AckedData() == Accepted()
      ensures Faults() >= old(Faults())
      ensures if old(Unfinished()) then err == Failed <==> Faults() > old(Faults()) else err == Nil
    {
      closed := true;
      err := Nil;
      if stream != null {
        OffsetIsLength();
        ghost var before := stream.State();
        ghost var first := !stream.closed;
        err := stream.Finish();
        if err == Nil && first {
          stream.FinishedIsDurable(before);
        }
      }
    }
  }
}
