/**
 Writing a file (file_writer.go): rolling from block to block and driving the
 addBlock / updateBlockForPipeline / complete protocol of the namenode.
 */
module FileWriters {
  import opened Common
  import opened BlockWriters

  datatype BlockRef = BlockRef(id: int, numBytes: nat)

  datatype NamenodeCall =
    | AddBlock(previous: Option<BlockRef>)
    | UpdateBlockForPipeline(block: BlockRef)
    | Complete(last: Option<BlockRef>)

  /** A finalized block: its length before this writer, and the data the datanode has
      acknowledged since. */
  datatype ClosedBlock = ClosedBlock(id: int, start: nat, data: Bytes) {
    /** The block with its actual length. */
    function Ref(): BlockRef {
      BlockRef(id, start + |data|)
    }
  }

  function AckedBytes(blocks: seq<ClosedBlock>): Bytes {
    if blocks == [] then [] else AckedBytes(blocks[..|blocks| - 1]) + blocks[|blocks| - 1].data
  }

  lemma AckedBytesSnoc(blocks: seq<ClosedBlock>, b: ClosedBlock)
    ensures AckedBytes(blocks + [b]) == AckedBytes(blocks) + b.data
  {
    assert (blocks + [b])[..|blocks|] == blocks;
  }

  /** The requests made when the given blocks have been finalized and the block after
      them is open: each block is reported with its actual length, and the next addBlock
      names it as its predecessor. `created` tells a first block obtained from addBlock
      from one that was there for appending. */
  function Chain(blocks: seq<ClosedBlock>, created: bool): seq<NamenodeCall> {
    if blocks == [] then (if created then [AddBlock(None)] else [])
    else
      var r := blocks[|blocks| - 1].Ref();
      Chain(blocks[..|blocks| - 1], created) + [UpdateBlockForPipeline(r), AddBlock(Some(r))]
  }

  lemma ChainSnoc(blocks: seq<ClosedBlock>, b: ClosedBlock, created: bool)
    ensures Chain(blocks + [b], created)
            == Chain(blocks, created) + [UpdateBlockForPipeline(b.Ref()), AddBlock(Some(b.Ref()))]
  {
    assert (blocks + [b])[..|blocks|] == blocks;
  }

  /** All requests of a file that was closed without an error. */
  function ClosedChain(blocks: seq<ClosedBlock>, created: bool): seq<NamenodeCall> {
    if blocks == [] then [Complete(None)]
    else
      var r := blocks[|blocks| - 1].Ref();
      Chain(blocks[..|blocks| - 1], created) + [UpdateBlockForPipeline(r), Complete(Some(r))]
  }

  function Max(a: int, b: int): int {
    if a < b then b else a
  }

  /** The length at which a block that started at `start` is rolled. */
  predicate IsFull(b: ClosedBlock, blockSize: int) {
    b.start + |b.data| == Max(b.start, blockSize)
  }

  /** Where block number i starts: only the first block can have old contents. */
  function StartOf(i: nat, firstStart: nat): nat {
    if i == 0 then firstStart else 0
  }

  ghost predicate AllFull(blocks: seq<ClosedBlock>, blockSize: int, firstStart: nat) {
    forall i :: 0 <= i < |blocks| ==> IsFull(blocks[i], blockSize) && blocks[i].start == StartOf(i, firstStart)
  }

  /** The state of a file that is being written, on values: which blocks are finalized,
      what the namenode was told, what has been written in all, and what of it is in the
      open block. `more` bytes of a running Write are still to come. */
  datatype Books = Books(blockSize: int, created: bool, firstStart: nat, blocks: seq<ClosedBlock>,
                         log: seq<NamenodeCall>, written: Bytes, start: nat, current: Bytes)
  {
    ghost predicate Balanced(more: bool) {
      && log == Chain(blocks, created)
      && AckedBytes(blocks) + current == written
      && AllFull(blocks, blockSize, firstStart)
      && start == StartOf(|blocks|, firstStart)
      && start + |current| <= Max(start, blockSize)
      && (blocks != [] ==> more || current != [])
    }

    /** The books of a file that was closed without an error. */
    ghost predicate Closed() {
      && AckedBytes(blocks) == written
      && log == ClosedChain(blocks, created)
      && (blocks != [] ==>
            var n := |blocks| - 1;
            && AllFull(blocks[..n], blockSize, firstStart)
            && blocks[n].start == StartOf(n, firstStart)
            && blocks[n].start + |blocks[n].data| <= Max(blocks[n].start, blockSize)
            && (n > 0 ==> blocks[n].data != []))
    }
  }

  lemma BooksWrite(k: Books, c: Bytes, more: bool)
    requires k.Balanced(true) && (more || c != [])
    requires c == [] || k.start + |k.current| + |c| <= Max(k.start, k.blockSize)
    ensures k.(written := k.written + c, current := k.current + c).Balanced(more)
  {
    assert AckedBytes(k.blocks) + (k.current + c) == k.written + c;
  }

  lemma BooksRoll(k: Books, b: ClosedBlock)
    requires k.Balanced(true) && k.start + |k.current| >= k.blockSize
    requires b.start == k.start && b.data == k.current
    ensures k.(blocks := k.blocks + [b], start := 0, current := [],
               log := k.log + [UpdateBlockForPipeline(b.Ref()), AddBlock(Some(b.Ref()))]).Balanced(true)
  {
    hide Chain, AckedBytes;
    AckedBytesSnoc(k.blocks, b);
    ChainSnoc(k.blocks, b, k.created);
    assert AckedBytes(k.blocks + [b]) + [] == k.written;
  }

  lemma BooksClose(k: Books, b: ClosedBlock)
    requires k.Balanced(false) && b.start == k.start && b.data == k.current
    ensures k.(blocks := k.blocks + [b], start := 0, current := [],
               log := k.log + [UpdateBlockForPipeline(b.Ref()), Complete(Some(b.Ref()))]).Closed()
  {
    AckedBytesSnoc(k.blocks, b);
    assert (k.blocks + [b])[..|k.blocks|] == k.blocks;
  }

  lemma BooksOpen(k: Books)
    requires k.blocks == [] && k.written == k.current == [] && k.start == k.firstStart == 0 && k.created
    requires k.log == [AddBlock(None)]
    ensures k.Balanced(false)
  {
  }

  lemma BooksExpectMore(k: Books)
    requires k.Balanced(false)
    ensures k.Balanced(true)
  {
  }

  lemma EmptyBooksClose(k: Books)
    requires k.blocks == [] && k.written == [] && k.log == [Complete(None)]
    ensures k.Closed()
  {
  }

  class FileWriter {
    const blockSize: int
    const created: bool              // the first block comes from addBlock
    const firstStart: nat            // length of the first block before this writer
    var blockWriter: BlockWriter?
    var closed: bool

    var log: seq<NamenodeCall>      // every request sent to the namenode
    var blocks: seq<ClosedBlock>    // every block finalized so far
    var accepted: Bytes             // every byte a Write call counted as written
    var failed: bool                // some call has returned an error
    var faults: nat                 // how often a datanode or the namenode failed

    ghost function Footprint(): set<object>
      reads this, blockWriter
    {
      {this} +
      (if blockWriter == null then {}
       else {blockWriter, blockWriter.block} + if blockWriter.stream == null then {} else {blockWriter.stream})
    }

    function BooksWith(pending: Bytes): Books
      reads this, blockWriter, if blockWriter == null then null else blockWriter.stream
    {
      Books(blockSize, created, firstStart, blocks, log, accepted + pending,
            if blockWriter == null then 0 else blockWriter.start,
            if blockWriter == null then [] else blockWriter.Accepted())
    }

    /** The open block continues where the finalized ones end; `pending` bytes of the
        running Write have been accepted, and `more` are still to come. */
    ghost predicate Rolling(pending: Bytes, more: bool)
      reads this, blockWriter, if blockWriter == null then null else blockWriter.stream
    {
      blockWriter != null && blockWriter.Unfinished() && BooksWith(pending).Balanced(more)
    }

    ghost predicate Sound()
      reads this, blockWriter, if blockWriter == null then null else blockWriter.stream
    {
      if closed then blockWriter == null && BooksWith([]).Closed()
      else if blockWriter == null then created && firstStart == 0 && log == [] && blocks == [] && accepted == []
      else Rolling([], false)
    }

    ghost predicate Valid()
      reads this, blockWriter, if blockWriter == null then null else blockWriter.stream
    {
      && (blockWriter != null ==> blockWriter.Valid() && blockWriter.blockSize == blockSize)
      && (!failed ==> Sound())
      && (failed && 0 < blockSize ==> faults > 0)
    }

    /** A new file, or an append to a file whose last block is full. */
    constructor Create(blockSize: int)
      ensures Valid() && !failed && !closed && created && accepted == [] && this.blockSize == blockSize
      ensures fresh(Footprint()) && blockWriter == null && blocks == [] && firstStart == 0 && faults == 0
    {
      this.blockSize, created, firstStart, blockWriter, closed := blockSize, true, 0, null, false;
      log, blocks, accepted, failed, faults := [], [], [], false, 0;
    }

    /** An append to a file whose last block has `start` bytes. */
    constructor Append(blockSize: int, id: int, start: nat)
      ensures Valid() && !failed && !closed && !created && accepted == [] && this.blockSize == blockSize
      ensures fresh(Footprint()) && blockWriter != null && blocks == [] && firstStart == start && faults == 0
    {
      this.blockSize, created, firstStart, closed := blockSize, false, start, false;
      log, blocks, accepted, failed, faults := [], [], [], false, 0;
      var b := new ExtendedBlock(id, start);
      blockWriter := new BlockWriter(b, blockSize, start);
    }

    lemma NoBlockYet()
      requires Valid() && !failed && !closed && blockWriter == null
      ensures blocks == []
    {
    }

    lemma ClosedBooks()
      requires Valid() && !failed && closed
      ensures Books(blockSize, created, firstStart, blocks, log, accepted, 0, []).Closed()
    {
      assert accepted + [] == accepted;
    }

    method Execute(call: NamenodeCall) returns (err: Error)
      modifies this`log, this`faults
      ensures log == old(log) + [call] && err in {Nil, Failed}
      ensures faults == old(faults) + if err == Failed then 1 else 0
    {
      log := log + [call];
      var ok: bool := *;
      if ok {
        return Nil;
      }
      faults := faults + 1;
      err := Failed;
    }

    /** Closes the block writer, and counts what went wrong with it. */
    method CloseBlockWriter() returns (err: Error)
      requires blockWriter != null && blockWriter.Valid()
      modifies this`faults, blockWriter`closed, blockWriter.stream
      ensures blockWriter.Valid() && blockWriter.Accepted() == old(blockWriter.Accepted()) && err in {Nil, Failed}
      ensures err == Nil && old(blockWriter.Unfinished()) ==> blockWriter.AckedData() == blockWriter.Accepted()
      ensures faults >= old(faults) && (err == Failed ==> faults > old(faults))
      ensures old(blockWriter.Unfinished()) ==> (err == Failed <==> faults > old(faults))
    {
      hide BlockWriter.Valid, BlockWriter.Faults, BlockWriter.Accepted, BlockWriter.AckedData, BlockWriter.Unfinished;
      var before := blockWriter.Faults();
      err := blockWriter.Close();
      faults := faults + (blockWriter.Faults() - before);
    }

    method FinalizeBlock() returns (err: Error)
      requires blockWriter != null && blockWriter.Valid()
      modifies this`blockWriter, this`log, this`blocks, this`faults
      modifies blockWriter`closed, blockWriter.block, blockWriter.stream
      ensures faults >= old(faults) && (old(blockWriter.Unfinished()) ==> (err == Failed <==> faults > old(faults)))
      ensures err == Failed ==> faults > old(faults)
      ensures err in {Nil, Failed} && (err == Nil ==> blockWriter == null)
      ensures err != Nil ==> blockWriter == old(blockWriter) && blockWriter.Valid()
      ensures err == Nil && old(blockWriter.Unfinished()) ==>
                var b := ClosedBlock(old(blockWriter.block.id), old(blockWriter.start), old(blockWriter.Accepted()));
                && blocks == old(blocks) + [b]
                && log == old(log) + [UpdateBlockForPipeline(b.Ref())]
                && BlockRef(old(blockWriter).block.id, old(blockWriter).block.numBytes) == b.Ref()
    {
      hide BlockWriter.Valid, BlockWriter.AckedData, BlockWriter.Unfinished;
      err := CloseBlockWriter();
      if err != Nil {
        return;
      }
      blockWriter.OffsetIsLength();
      var lastBlock := blockWriter.block;
      lastBlock.numBytes := blockWriter.offset;
      err := Execute(UpdateBlockForPipeline(BlockRef(lastBlock.id, lastBlock.numBytes)));
      if err != Nil {
        return;
      }
      blocks := blocks + [ClosedBlock(lastBlock.id, blockWriter.start, blockWriter.AckedData())];
      blockWriter := null;
    }

    method StartNewBlock() returns (err: Error)
      requires blockWriter != null ==> blockWriter.Valid()
      modifies this`blockWriter, this`log, this`blocks, this`faults
      modifies if blockWriter == null then {} else {blockWriter}
      modifies if blockWriter == null then null else blockWriter.block
      modifies if blockWriter == null then null else blockWriter.stream
      ensures err in {Nil, Failed} && faults >= old(faults) && (err == Failed ==> faults > old(faults))
      ensures old(blockWriter) == null || old(blockWriter.Unfinished()) ==> (err == Failed <==> faults > old(faults))
      ensures err != Nil ==> blockWriter == null ||
                             (blockWriter == old(blockWriter) && blockWriter.Valid() && blockWriter.stream == old(blockWriter.stream))
      ensures err == Nil ==>
                && blockWriter != null && fresh(blockWriter) && fresh(blockWriter.block)
                && blockWriter.Valid() && blockWriter.stream == null
                && blockWriter.start == 0 && blockWriter.blockSize == blockSize
      ensures err == Nil && old(blockWriter) == null ==> blocks == old(blocks) && log == old(log) + [AddBlock(None)]
      ensures err == Nil && old(blockWriter) != null && old(blockWriter.Unfinished()) ==>
                var b := ClosedBlock(old(blockWriter.block.id), old(blockWriter.start), old(blockWriter.Accepted()));
                && blocks == old(blocks) + [b]
                && log == old(log) + [UpdateBlockForPipeline(b.Ref()), AddBlock(Some(b.Ref()))]
    {
      var previous: ExtendedBlock? := null;
      if blockWriter != null {
        previous := blockWriter.block;
        err := FinalizeBlock();
        if err != Nil {
          return;
        }
      }
      err := Execute(AddBlock(if previous == null then None else Some(BlockRef(previous.id, previous.numBytes))));
      if err != Nil {
        return;
      }
      var id: int := *;
      var b := new ExtendedBlock(id, 0);
      blockWriter := new BlockWriter(b, blockSize, 0);
    }

    /** Hands bytes to the block writer, and counts what went wrong with it. */
    method WriteToBlock(b: Bytes) returns (n: nat, err: Error)
      requires blockWriter != null && blockWriter.Valid() && blockWriter.blockSize == blockSize
      modifies this`faults, blockWriter, blockWriter.stream
      ensures blockWriter.Valid() && n <= |b| && err in {Nil, EndOfBlock, Failed, ClosedPipe}
      ensures blockWriter.stream != old(blockWriter.stream) ==> old(blockWriter.stream) == null && fresh(blockWriter.stream)
      ensures blockWriter.Accepted() == old(blockWriter.Accepted()) + b[..n]
      ensures blockWriter.Unfinished() == old(blockWriter.Unfinished()) && (err == ClosedPipe ==> !old(blockWriter.Unfinished()))
      ensures faults == old(faults) + if err == Failed then 1 else 0
      ensures blockWriter.offset == old(blockWriter.offset) + n == blockWriter.start + |blockWriter.Accepted()|
      ensures n == old(blockWriter.Fits(|b|)) || (n == 0 && err in {Failed, ClosedPipe})
      ensures err == Nil ==> blockWriter.offset <= blockSize && n == |b|
      ensures err == EndOfBlock ==> old(blockWriter.offset) >= blockSize || (blockWriter.offset == blockSize && n < |b|)
    {
      hide BlockWriter.Valid, BlockWriter.Faults, BlockWriter.Accepted, BlockWriter.Unfinished, BlockWriter.Fits;
      var before := blockWriter.Faults();
      n, err := blockWriter.Write(b);
      faults := faults + (blockWriter.Faults() - before);
      blockWriter.OffsetIsLength();
    }

    /** One round of the loop in Write: hand the rest of the bytes to the open block and,
        if that is full, move on to the next one. */
    method WriteSome(b: Bytes, ghost pending: Bytes) returns (n: nat, err: Error)
      requires b != []
      requires blockWriter != null && blockWriter.Valid() && blockWriter.blockSize == blockSize
      requires !failed ==> Rolling(pending, true)
      modifies this`blockWriter, this`log, this`blocks, this`faults, blockWriter, blockWriter.block, blockWriter.stream
      ensures n <= |b| && fresh(Footprint() - old(Footprint())) && err in {Nil, Failed, ClosedPipe}
      ensures blockWriter != null ==> blockWriter.Valid() && blockWriter.blockSize == blockSize
      ensures err == Nil ==>
                && blockWriter != null
                && (n > 0 || blockSize <= 0 || (old(blockWriter.offset) >= blockSize > blockWriter.offset))
      ensures blockSize <= 0 ==> n == 0
      ensures err == Nil && !failed ==> Rolling(pending + b[..n], n < |b|)
      ensures faults >= old(faults) && (err == Failed ==> faults > old(faults))
      ensures !failed ==> err != ClosedPipe && (err == Failed <==> faults > old(faults))
    {
      hide Books.Balanced, BlockWriter.Valid;
      ghost var k := BooksWith(pending);
      blockWriter.OffsetIsLength();
      n, err := WriteToBlock(b);
      ghost var l := BooksWith(pending + b[..n]);
      if err in {Nil, EndOfBlock} && !failed {
        assert l.written == k.written + b[..n];
        BooksWrite(k, b[..n], n < |b|);
      }
      if err == EndOfBlock {
        ghost var b := ClosedBlock(blockWriter.block.id, blockWriter.start, blockWriter.Accepted());
        err := StartNewBlock();
        if err == Nil && !failed {
          BooksRoll(l, b);
        }
      }
    }

    /** Opens a block if none is open. */
    method EnsureBlock() returns (err: Error)
      requires Valid() && !closed
      modifies Footprint()
      ensures Valid() && fresh(Footprint() - old(Footprint())) && !closed && accepted == old(accepted)
      ensures err in {Nil, Failed} && faults >= old(faults)
      ensures !old(failed) ==> (err == Failed <==> faults > old(faults))
      ensures failed && 0 < blockSize ==> faults > 0
      ensures err == Nil ==> blockWriter != null && failed == old(failed)
      ensures err != Nil ==> failed
    {
      hide Books.Balanced, Books.Closed, BlockWriter.Valid;
      err := Nil;
      if blockWriter == null {
        err := StartNewBlock();
        failed := failed || err != Nil;
        if !failed {
          BooksOpen(BooksWith([]));
        }
      }
    }

    /** The loop of Write. With a block size of zero or less it starts blocks for ever; `patience`
        says after how many of those to stop looking. */
    method WriteAll(b: Bytes, patience: nat) returns (n: nat, err: Error)
      requires Valid() && !closed && blockWriter != null
      modifies Footprint()
      ensures n <= |b| && fresh(Footprint() - old(Footprint()))
      ensures closed == old(closed) && failed == old(failed) && accepted == old(accepted)
      ensures blockWriter != null ==> blockWriter.Valid() && blockWriter.blockSize == blockSize
      ensures err in {Nil, Failed, ClosedPipe, StillRetrying}
      ensures err == StillRetrying ==> blockSize <= 0 && b != []
      ensures faults >= old(faults) && (err == Failed ==> faults > old(faults))
      ensures !failed ==> err != ClosedPipe && (err == Failed <==> faults > old(faults))
      ensures err == Nil ==> n == |b| && blockWriter != null && (!failed ==> Rolling(b, false))
      ensures blockSize <= 0 ==> n == 0
    {
      hide Books.Balanced, Books.Closed, BlockWriter.Valid, BlockWriter.Accepted, BlockWriter.Unfinished;
      n := 0;
      assert b[..n] == [];
      if !failed {
        BooksExpectMore(BooksWith([]));
        assert Rolling(b[..n], n < |b|);
      }
      hide Rolling, Sound;
      var left := patience;
      while n < |b|
        invariant blockSize <= 0 ==> n == 0
        invariant n <= |b| && fresh(Footprint() - old(Footprint()))
        invariant closed == old(closed) && failed == old(failed) && accepted == old(accepted)
        invariant faults >= old(faults) && (!failed ==> faults == old(faults))
        invariant blockWriter != null && blockWriter.Valid() && blockWriter.blockSize == blockSize
        invariant !failed ==> Rolling(b[..n], n < |b|)
        decreases |b| - n, left, if blockWriter.offset >= blockSize then 1 else 0
      {
        if blockSize <= 0 {
          if left == 0 {
            return n, StillRetrying;
          }
          left := left - 1;
        }
        var m;
        ghost var was := n;
        m, err := WriteSome(b[n..], b[..n]);
        n := n + m;
        assert b[..n] == b[..was] + b[was..][..m];
        if err != Nil {
          return;
        }
      }
      assert b[..n] == b;
      err := Nil;
    }

    /** Keeps count of what a Write has done. */
    method NoteWritten(got: Bytes, err: Error)
      requires !closed && (blockWriter != null ==> blockWriter.Valid() && blockWriter.blockSize == blockSize)
      requires err == Nil && !failed ==> Rolling(got, false)
      requires (failed || err != Nil) && 0 < blockSize ==> faults > 0
      modifies this`accepted, this`failed
      ensures Valid() && accepted == old(accepted) + got && failed == (old(failed) || err != Nil)
    {
      hide Books.Balanced, Books.Closed, BlockWriter.Valid, BlockWriter.Accepted, BlockWriter.Unfinished;
      failed := failed || err != Nil;
      accepted := accepted + got;
      assert accepted + [] == accepted;
    }

    method Write(b: Bytes, patience: nat) returns (n: nat, err: Error)
      requires Valid()
      modifies Footprint()
      ensures Valid() && fresh(Footprint() - old(Footprint())) && closed == old(closed)
      ensures n <= |b| && accepted == old(accepted) + b[..n]
      ensures closed ==> n == 0 && err == ClosedPipe && failed == old(failed) && log == old(log)
      ensures !closed && err == Nil ==> n == |b| && failed == old(failed) && blockWriter != null
      ensures !closed && err != Nil ==> failed
      ensures blockSize <= 0 ==> n == 0
      ensures faults >= old(faults) && (!closed && !old(failed) ==> (err == Failed <==> faults > old(faults)))
      ensures !closed && !old(failed) ==> err != ClosedPipe
      // The loop ends whenever a block has room.
      ensures err in {Nil, Failed, ClosedPipe, StillRetrying}
      ensures err == StillRetrying ==> blockSize <= 0 && b != []
    {
      hide Valid, Rolling, BlockWriter.Valid;
      if closed {
        return 0, ClosedPipe;
      }
      err := EnsureBlock();
      if err != Nil {
        return 0, err;
      }
      n, err := WriteAll(b, patience);
      assert b[..|b|] == b;
      NoteWritten(b[..n], err);
    }

    method Flush() returns (err: Error)
      requires Valid()
      modifies Footprint()
      ensures Valid() && Footprint() == old(Footprint()) && closed == old(closed) && accepted == old(accepted)
      ensures log == old(log) && blockWriter == old(blockWriter)
      ensures closed ==> err == ClosedPipe && failed == old(failed)
      ensures !closed ==> (if err == Nil then failed == old(failed) else failed)
      ensures faults >= old(faults)
      ensures !closed && !old(failed) ==> err in {Nil, Failed} && (err == Failed <==> faults > old(faults))
      ensures err == Nil && blockWriter != null && blockWriter.stream != null ==> blockWriter.stream.buf == []
    {
      hide Books.Balanced, Books.Closed, BlockWriter.Valid;
      if closed {
        return ClosedPipe;
      }
      err := Nil;
      if blockWriter != null {
        var before := blockWriter.Faults();
        err := blockWriter.Flush();
        faults := faults + (blockWriter.Faults() - before);
        failed := failed || err != Nil;
      }
    }

    /** Tells the namenode that the file is complete. */
    method CompleteFile(last: Option<BlockRef>) returns (err: Error)
      requires closed && blockWriter == null && (failed && 0 < blockSize ==> faults > 0)
      requires !failed ==> BooksWith([]).(log := log + [Complete(last)]).Closed()
      modifies this`log, this`failed, this`faults
      ensures Valid() && err in {Nil, Failed} && failed == (old(failed) || err != Nil)
      ensures faults == old(faults) + if err == Failed then 1 else 0
    {
      hide Books.Closed, Books.Balanced;
      err := Execute(Complete(last));
      failed := failed || err != Nil;
    }

    /** The books once the last block is finalized, and the namenode about to be told. */
    lemma LastBlockBooks(k: Books, b: ClosedBlock)
      requires k.Balanced(false) && b.start == k.start && b.data == k.current
      requires blockWriter == null && blocks == k.blocks + [b] && log == k.log + [UpdateBlockForPipeline(b.Ref())]
      requires k.blockSize == blockSize && k.created == created && k.firstStart == firstStart && k.written == accepted
      ensures BooksWith([]).(log := log + [Complete(Some(b.Ref()))]).Closed()
    {
      hide Books.Balanced, Books.Closed;
      BooksClose(k, b);
      assert accepted + [] == accepted;
      assert BooksWith([]).(log := log + [Complete(Some(b.Ref()))])
             == k.(blocks := k.blocks + [b], start := 0, current := [],
                   log := k.log + [UpdateBlockForPipeline(b.Ref()), Complete(Some(b.Ref()))]);
    }

    /** Close. If no call before it failed and it returns nil, everything accepted has been
        acknowledged and the namenode has been told the actual length of every block. */
    method Close() returns (err: Error)
      requires Valid()
      modifies Footprint()
      ensures Valid() && fresh(Footprint() - old(Footprint())) && closed && accepted == old(accepted)
      ensures old(closed) ==> err == ClosedPipe && failed == old(failed)
      ensures !old(closed) ==> (if err == Nil then failed == old(failed) else failed)
      ensures faults >= old(faults)
      ensures !old(closed) && !old(failed) ==> err in {Nil, Failed} && (err == Failed <==> faults > old(faults))
      ensures !old(closed) && err == Nil && !failed ==>
                |blocks| == old(|blocks|) + if old(blockWriter) == null then 0 else 1
    {
      hide Books.Balanced, Books.Closed, BlockWriter.Valid, BlockWriter.Accepted, BlockWriter.Unfinished;
      if closed {
        return ClosedPipe;
      }
      closed := true;
      var lastBlock: Option<BlockRef> := None;
      ghost var k := BooksWith([]);
      assert accepted + [] == accepted;
      if blockWriter != null {
        var block := blockWriter.block;
        ghost var b := ClosedBlock(block.id, k.start, k.current);
        err := FinalizeBlock();
        if err != Nil {
          failed := true;
          return;
        }
        lastBlock := Some(BlockRef(block.id, block.numBytes));
        if !failed {
          LastBlockBooks(k, b);
        }
      } else if !failed {
        EmptyBooksClose(BooksWith([]).(log := log + [Complete(None)]));
      }
      err := CompleteFile(lastBlock);
    }
  }

  /** What a program does to a file between opening and closing it. */
  datatype Op = Write(b: Bytes) | Flush

  function WrittenBytes(ops: seq<Op>): Bytes {
    if ops == [] then []
    else
      var init, op := WrittenBytes(ops[..|ops| - 1]), ops[|ops| - 1];
      if op.Write? then init + op.b else init
  }

  predicate AnyWrite(ops: seq<Op>) {
    exists i :: 0 <= i < |ops| && ops[i].Write?
  }

  /** A whole session that stops at the first error. `ok` means that every call returned
      nil, the Close included. If blocks have room, that is so exactly if nothing failed
      outside. */
  method Session(f: FileWriter, ops: seq<Op>, patience: nat) returns (ok: bool)
    requires f.Valid() && !f.failed && !f.closed && f.accepted == [] && f.blocks == []
    modifies f.Footprint()
    ensures ok ==> f.Valid() && f.closed && !f.failed && f.accepted == WrittenBytes(ops)
    ensures ok ==> (f.blocks != [] <==> old(f.blockWriter) != null || AnyWrite(ops))
    ensures (ok ==> f.faults == old(f.faults)) && (0 < f.blockSize ==> (ok <==> f.faults == old(f.faults)))
  {
    hide FileWriter.Valid;
    var i := 0;
    assert ops[..0] == [];
    while i < |ops|
      invariant i <= |ops|
      invariant f.Valid() && !f.failed && !f.closed && fresh(f.Footprint() - old(f.Footprint()))
      invariant f.accepted == WrittenBytes(ops[..i]) && f.faults == old(f.faults)
      invariant f.blockWriter != null <==> old(f.blockWriter) != null || AnyWrite(ops[..i])
    {
      assert ops[..i + 1][..i] == ops[..i];
      var err;
      match ops[i] {
        case Write(b) =>
          var n;
          n, err := f.Write(b, patience);
          assert ops[..i + 1][i].Write? && b[..|b|] == b;
        case Flush =>
          err := f.Flush();
      }
      if err != Nil {
        return false;
      }
      i := i + 1;
    }
    assert ops[..i] == ops;
    if f.blockWriter == null {
      f.NoBlockYet();
    }
    var err := f.Close();
    ok := err == Nil;
  }

  lemma FullBlockLength(b: ClosedBlock, i: nat, blockSize: nat, firstStart: nat)
    requires IsFull(b, blockSize) && b.start == StartOf(i, firstStart)
    ensures |b.data| == if i == 0 then blockSize - Min(firstStart, blockSize) else blockSize
  {
  }

  lemma {:induction false} FullBlocksLength(blocks: seq<ClosedBlock>, blockSize: nat, firstStart: nat)
    requires AllFull(blocks, blockSize, firstStart)
    ensures blocks != [] ==> Min(firstStart, blockSize) + |AckedBytes(blocks)| == |blocks| * blockSize
    decreases |blocks|
  {
    if blocks != [] {
      var n := |blocks| - 1;
      var init, last := blocks[..n], blocks[n];
      hide IsFull, StartOf, Max;
      FullBlocksLength(init, blockSize, firstStart);
      FullBlockLength(last, n, blockSize, firstStart);
      hide AllFull;
      assert (n + 1) * blockSize == n * blockSize + blockSize;
    }
  }

  /** The last block and those before it. */
  lemma LastBlock(k: Books) returns (init: seq<ClosedBlock>, last: ClosedBlock)
    requires k.Closed() && k.blocks != []
    ensures k.blocks == init + [last] && k.written == AckedBytes(init) + last.data
    ensures AllFull(init, k.blockSize, k.firstStart) && last.start == StartOf(|init|, k.firstStart)
    ensures last.start + |last.data| <= Max(last.start, k.blockSize) && (init != [] ==> last.data != [])
  {
    hide AllFull, ClosedChain;
    init, last := k.blocks[..|k.blocks| - 1], k.blocks[|k.blocks| - 1];
    AckedBytesSnoc(init, last);
  }

  /** The total length is more than the blocks before the last hold, and no more than all do. */
  lemma TotalLength(k: Books) returns (full: nat, total: nat)
    requires k.Closed() && 0 < k.blockSize && k.blocks != []
    ensures full == (|k.blocks| - 1) * k.blockSize && total == Min(k.firstStart, k.blockSize) + |k.written|
    ensures if total == 0 then |k.blocks| == 1 else full < total <= full + k.blockSize
  {
    var init, last := LastBlock(k);
    assert AckedBytes([]) == [];
    hide Books.Closed, AllFull, AckedBytes;
    FullBlocksLength(init, k.blockSize, k.firstStart);
    full, total := |init| * k.blockSize, Min(k.firstStart, k.blockSize) + |k.written|;
    if init == [] {
      assert full == 0;
    }
  }

  /** Rolling is exact: the number of blocks is the total length, counting what the first block
      held before, up to its size, divided by the block size and rounded up. */
  lemma RollingIsExact(k: Books)
    requires k.Closed() && 0 < k.blockSize
    ensures k.blocks == [] ==> k.written == []
    ensures |k.blocks| == 1 ==> k.blocks[0].data == k.written
    ensures var total := Min(k.firstStart, k.blockSize) + |k.written|;
            k.blocks != [] ==> |k.blocks| == if total == 0 then 1 else CeilDiv(total, k.blockSize)
  {
    if k.blocks != [] {
      var n := |k.blocks|;
      var full, total := TotalLength(k);
      assert n == 1 ==> k.blocks[0].data == k.written by {
        var init, last := LastBlock(k);
        assert n == 1 ==> init == [];
      }
      hide *;
      if total > 0 {
        assert n * k.blockSize == full + k.blockSize;
        CeilDivUnique(total, k.blockSize, n);
      }
    }
  }

  lemma {:induction false} NoRoomForFullBlocks(blocks: seq<ClosedBlock>, blockSize: int, firstStart: nat)
    requires AllFull(blocks, blockSize, firstStart) && blockSize <= 0
    ensures AckedBytes(blocks) == []
    decreases |blocks|
  {
    if blocks != [] {
      NoRoomForFullBlocks(blocks[..|blocks| - 1], blockSize, firstStart);
      assert IsFull(blocks[|blocks| - 1], blockSize);
    }
  }

  /** Without room in any block, nothing can have been written. */
  lemma NoRoom(k: Books)
    requires k.Closed() && k.blockSize <= 0
    ensures k.written == [] && |k.blocks| <= 1
  {
    if k.blocks != [] {
      var init, last := LastBlock(k);
      hide Books.Closed;
      NoRoomForFullBlocks(init, k.blockSize, k.firstStart);
    }
  }

  /** Durability of a whole file. If every call on a new file returns nil, then what the
      datanodes acknowledged, block by block, is what was written, the namenode was told
      the actual length of every block, and there are just as many blocks as it takes. And
      every call does return nil unless a datanode or the namenode fails. */
  method WriteNewFile(blockSize: int, ops: seq<Op>, patience: nat)
    returns (ok: bool, blocks: seq<ClosedBlock>, log: seq<NamenodeCall>, faults: nat)
    ensures 0 < blockSize ==> (ok <==> faults == 0)
    ensures ok ==> AckedBytes(blocks) == WrittenBytes(ops) && log == ClosedChain(blocks, true)
    ensures ok && WrittenBytes(ops) == [] ==> |blocks| == if AnyWrite(ops) then 1 else 0
    ensures ok && WrittenBytes(ops) != [] ==> 0 < blockSize && |blocks| == CeilDiv(|WrittenBytes(ops)|, blockSize)
    ensures ok ==> forall i :: 0 <= i < |blocks| - 1 ==> |blocks[i].data| == blockSize
    ensures ok && WrittenBytes(ops) != [] ==> 0 < |blocks[|blocks| - 1].data| <= blockSize
  {
    hide FileWriter.Valid, Chain, AckedBytes, WrittenBytes;
    var f := new FileWriter.Create(blockSize);
    ok := Session(f, ops, patience);
    blocks, log, faults := f.blocks, f.log, f.faults;
    if ok {
      f.ClosedBooks();
      ghost var k := Books(blockSize, true, 0, blocks, log, f.accepted, 0, []);
      if blockSize <= 0 {
        NoRoom(k);
      } else {
        RollingIsExact(k);
      }
      assert forall i :: 0 <= i < |blocks| - 1 ==> blocks[..|blocks| - 1][i] == blocks[i];
    }
  }

  /** The same for appending to a file whose last block holds `start` bytes, be they fewer or
      more than the block size. */
  method AppendToFile(blockSize: int, id: int, start: nat, ops: seq<Op>, patience: nat)
    returns (ok: bool, blocks: seq<ClosedBlock>, log: seq<NamenodeCall>, faults: nat)
    ensures 0 < blockSize ==> (ok <==> faults == 0)
    ensures ok ==> AckedBytes(blocks) == WrittenBytes(ops) && log == ClosedChain(blocks, false)
    ensures ok ==> blocks != [] && blocks[0].start == start
    ensures ok && blockSize <= 0 ==> WrittenBytes(ops) == [] && |blocks| == 1
    ensures ok && 0 < blockSize ==>
              var total := Min(start, blockSize) + |WrittenBytes(ops)|;
              |blocks| == if total == 0 then 1 else CeilDiv(total, blockSize)
    ensures ok ==> forall i :: 0 <= i < |blocks| - 1 ==> IsFull(blocks[i], blockSize)
    ensures ok && |blocks| > 1 ==> 0 < |blocks[|blocks| - 1].data| <= blockSize
    ensures ok && |blocks| == 1 ==> blocks[0].data == WrittenBytes(ops) && start + |blocks[0].data| <= Max(start, blockSize)
  {
    hide FileWriter.Valid, Chain, AckedBytes, WrittenBytes;
    var f := new FileWriter.Append(blockSize, id, start);
    ok := Session(f, ops, patience);
    blocks, log, faults := f.blocks, f.log, f.faults;
    if ok {
      f.ClosedBooks();
      ghost var k := Books(blockSize, false, start, blocks, log, f.accepted, 0, []);
      if blockSize <= 0 {
        NoRoom(k);
      } else {
        RollingIsExact(k);
      }
      assert forall i :: 0 <= i < |blocks| - 1 ==> blocks[..|blocks| - 1][i] == blocks[i];
    }
  }
}
