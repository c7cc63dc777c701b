/**
 Reading a file (file_reader.go): a seekable byte array made of blocks, each read by its
 own block reader.
 */
module FileReaders {
  import opened Common
  import opened Failover
  import opened BlockReaders

  /** A block as the namenode describes it, together with what it holds. */
  datatype LocatedBlock = LocatedBlock(offset: nat, contents: Bytes, locations: seq<Address>)

  /** The blocks lie end to end and hold the file's bytes from `from` on. */
  predicate Tiles(blocks: seq<LocatedBlock>, from: nat, file: Bytes) {
    if blocks == [] then from == |file|
    else
      var b := blocks[0];
      var end := from + |b.contents|;
      b.offset == from && end <= |file| && b.contents == file[from..end] && Tiles(blocks[1..], end, file)
  }

  predicate Holds(b: LocatedBlock, off: nat) {
    b.offset <= off < b.offset + |b.contents|
  }

  /** Every block that holds anything has a datanode. */
  predicate Located(layout: seq<LocatedBlock>) {
    forall i :: 0 <= i < |layout| && layout[i].contents != [] ==> layout[i].locations != []
  }

  /** All datanodes of the block that holds this offset are on record as failed. */
  ghost predicate OutOfReach(layout: seq<LocatedBlock>, off: nat, down: set<Address>) {
    exists i :: 0 <= i < |layout| && Holds(layout[i], off) && forall a :: a in layout[i].locations ==> a in down
  }

  lemma {:induction false} TileIsSlice(blocks: seq<LocatedBlock>, from: nat, file: Bytes, i: nat)
    requires Tiles(blocks, from, file) && i < |blocks|
    ensures var b := blocks[i];
            b.offset + |b.contents| <= |file| && b.contents == file[b.offset..b.offset + |b.contents|]
    decreases |blocks|
  {
    if i > 0 {
      TileIsSlice(blocks[1..], from + |blocks[0].contents|, file, i - 1);
    }
  }

  lemma {:induction false} TileExists(blocks: seq<LocatedBlock>, from: nat, file: Bytes, off: nat) returns (i: nat)
    requires Tiles(blocks, from, file) && from <= off < |file|
    ensures i < |blocks| && Holds(blocks[i], off)
    decreases |blocks|
  {
    if Holds(blocks[0], off) {
      i := 0;
    } else {
      i := TileExists(blocks[1..], from + |blocks[0].contents|, file, off);
      i := i + 1;
    }
  }

  /** What a read at offset `from` did to its buffer: the next n bytes of the file are there. */
  ghost predicate Reads(file: Bytes, from: nat, after: Bytes, before: Bytes, lo: nat, hi: nat, n: nat) {
    && lo + n <= hi <= |after| == |before| && after[..lo] == before[..lo]
    && from + n <= |file| && after[lo..lo + n] == file[from..from + n]
  }

  lemma ReadsNothing(file: Bytes, from: nat, b: Bytes, lo: nat, hi: nat)
    requires lo <= hi <= |b| && from <= |file|
    ensures Reads(file, from, b, b, lo, hi, 0)
  {
    assert b[lo..lo] == file[from..from];
  }

  lemma ReadsInFile(file: Bytes, from: nat, after: Bytes, before: Bytes, lo: nat, hi: nat, n: nat)
    requires Reads(file, from, after, before, lo, hi, n)
    ensures from + n <= |file| && lo + n <= |after|
  {
  }

  /** Reads in a row, the second behind what the first delivered. */
  lemma ReadsOn(file: Bytes, from: nat, after: Bytes, mid: Bytes, before: Bytes, lo: nat, hi: nat, m: nat, n: nat)
    requires Reads(file, from, mid, before, lo, hi, m) && Reads(file, from + m, after, mid, lo + m, hi, n)
    ensures Reads(file, from, after, before, lo, hi, m + n)
  {
    SliceSplit(after, lo, lo + m, lo + m + n);
    SliceSplit(file, from, from + m, from + m + n);
    SliceOfPrefix(after, lo + m, lo, lo + m);
    SliceOfPrefix(mid, lo + m, lo, lo + m);
    SliceOfPrefix(after, lo + m, 0, lo);
    SliceOfPrefix(mid, lo + m, 0, lo);
  }

  /** The search of getNewBlockReader. Inside the file it always finds a block. */
  method FindBlock(blocks: seq<LocatedBlock>, file: Bytes, off: nat) returns (block: LocatedBlock)
    requires Tiles(blocks, 0, file) && off < |file|
    ensures block in blocks && Holds(block, off) && block.offset + |block.contents| <= |file|
    ensures block.contents == file[block.offset..block.offset + |block.contents|]
  {
    ghost var k := TileExists(blocks, 0, file, off);
    var i := 0;
    while i < |blocks|
      invariant i <= k
    {
      block := blocks[i];
      if block.offset <= off < block.offset + |block.contents| {
        TileIsSlice(blocks, 0, file, i);
        return;
      }
      i := i + 1;
    }
    assert false;
  }

  class FileReader {
    const file: Bytes                      // what the file holds
    const isDir: bool
    const layout: seq<LocatedBlock>        // what the namenode answers to getBlockLocations
    const log: FailureLog
    var blocks: seq<LocatedBlock>          // empty until fetched
    var blockReader: BlockReader?
    ghost var block: LocatedBlock          // the block blockReader reads
    var offset: nat
    var closed: bool
    var reopened: nat                      // how often a block reader came to its end
    ghost var Repr: set<object>

    /** The block reader, if there is one, stands where the file reader does. */
    ghost predicate Linked()
      reads this, Repr
    {
      && {this, log} <= Repr
      && (blockReader != null ==> blockReader in Repr && blockReader.Repr <= Repr && this !in blockReader.Repr)
      && log.Valid() && Tiles(layout, 0, file) && (blocks == [] || blocks == layout)
      && offset <= |file|
      && (blockReader != null ==>
            && blockReader.Valid() && blockReader.log == log
            && block in layout && blockReader.contents == block.contents && blockReader.locations == block.locations
            && block.offset + |block.contents| <= |file|
            && block.contents == file[block.offset..block.offset + |block.contents|]
            && block.offset + blockReader.offset == offset)
    }

    ghost predicate Valid()
      reads this, Repr
    {
      Linked() && (blockReader != null && !closed ==> !blockReader.closed)
    }

    constructor (file: Bytes, isDir: bool, layout: seq<LocatedBlock>, log: FailureLog)
      requires log.Valid() && Tiles(layout, 0, file)
      ensures Valid() && !closed && offset == 0 && blockReader == null
      ensures this.file == file && this.isDir == isDir && this.log == log && fresh(Repr - {log})
      ensures this.layout == layout
    {
      this.file, this.isDir, this.layout, this.log := file, isDir, layout, log;
      blocks, blockReader, block, offset, closed, reopened := [], null, LocatedBlock(0, [], []), 0, false, 0;
      Repr := {this, log};
    }

    /** Where a seek would go, before the range check. */
    function Target(off: int, whence: int): Option<int>
      reads this
    {
      if whence == 0 then Some(off)
      else if whence == 1 then Some(offset + off)
      else if whence == 2 then Some(|file| + off)
      else None
    }

    method Seek(off: int, whence: int) returns (position: nat, err: Error)
      requires Valid()
      modifies this`offset, this`blockReader, if blockReader == null then {} else {blockReader}
      ensures Valid()
      ensures closed ==> position == 0 && err == ClosedPipe && offset == old(offset)
      ensures !closed ==>
                var t := old(Target(off, whence));
                if t.Some? && 0 <= t.value <= |file| then err == Nil && position == offset == t.value
                else err == Failed && position == offset == old(offset)
    {
      hide BlockReader.Valid, BlockReader.Plan, Tiles;
      if closed {
        return 0, ClosedPipe;
      }
      var t := Target(off, whence);
      if t == None || t.value < 0 || t.value > |file| {
        return offset, Failed;
      }
      if offset != t.value {
        offset := t.value;
        if blockReader != null {
          blockReader.Close();
          blockReader := null;
        }
      }
      return offset, Nil;
    }

    method Close()
      requires Valid()
      modifies this`closed, if blockReader == null then {} else {blockReader}
      ensures Valid() && closed && offset == old(offset)
    {
      hide BlockReader.Valid, BlockReader.Plan, Tiles;
      closed := true;
      if blockReader != null {
        blockReader.Close();
      }
    }

    method GetBlocks() returns (err: Error)
      requires Valid()
      modifies this`blocks, log`troubles
      ensures Valid() && err in {Nil, Failed} && (if err == Nil then blocks == layout else blocks == old(blocks))
      ensures log.troubles == old(log.troubles) + if err == Failed then 1 else 0
    {
      var ok: bool := *;
      if ok {
        blocks := layout;
        return Nil;
      }
      log.troubles := log.troubles + 1;
      err := Failed;
    }

    /** Starts a block reader for the block that holds the current offset. */
    method GetNewBlockReader() returns (err: Error)
      requires Linked() && blocks == layout && offset < |file|
      modifies this`blockReader, this`block, this`Repr
      ensures Valid() && err == Nil && fresh(Repr - old(Repr)) && blockReader != null
      ensures blockReader.offset < |blockReader.contents|
    {
      hide Tiles, BlockReader.Valid;
      var found := FindBlock(blocks, file, offset);
      block := found;
      blockReader := new BlockReader(found.contents, found.locations, offset - found.offset, log);
      Repr := Repr + blockReader.Repr;
      err := Nil;
    }

    /** Why a read at this offset fails: the datanodes of its block have all been given up. */
    ghost predicate Exhausted(off: nat)
      reads log
    {
      OutOfReach(layout, off, log.at.Keys) && (Located(layout) ==> log.troubles > 0)
    }

    /** One call of the block reader, with the file offset moved along. */
    method ReadBlock(b: array<uint8>, lo: nat, hi: nat) returns (n: nat, err: Error)
      requires Valid() && !closed && blockReader != null && lo < hi <= b.Length
      modifies Repr, b
      ensures Linked() && (err == Nil ==> Valid()) && fresh(Repr - old(Repr))
      ensures blockReader == old(blockReader) && blocks == old(blocks) && closed == old(closed)
      ensures offset == old(offset) + n && Reads(file, old(offset), b[..], old(b[..]), lo, hi, n)
      ensures err in {Nil, EOF, Failed} && (err == Nil <==> n > 0)
      ensures log.troubles >= old(log.troubles) && reopened == old(reopened)
      ensures err == Failed ==> Exhausted(old(offset))
      ensures err == EOF ==> old(blockReader.offset) >= |old(blockReader).contents| || log.troubles > old(log.troubles)
    {
      hide BlockReader.Valid, Tiles;
      ghost var from, start := offset, block.offset;
      n, err := blockReader.Read(b, lo, hi);
      offset, Repr := offset + n, Repr + blockReader.Repr;
      if n > 0 {
        var c := blockReader.contents;
        SliceOfSlice(file, start, start + |c|, from - start, offset - start);
      } else {
        assert b[..][lo..lo] == file[from..from];
      }
      if err == Failed {
        ghost var i :| 0 <= i < |layout| && layout[i] == block;
        assert Holds(layout[i], from);
      }
    }

    /** One round of the loop of Read. When the block reader has come to an end, be it the end
        of its block or a connection that was dropped, a new one takes its place. */
    method Round(b: array<uint8>, lo: nat, hi: nat) returns (n: nat, err: Error)
      requires Valid() && !closed && blockReader != null && lo < hi <= b.Length
      requires blocks == layout && offset < |file|
      modifies Repr, b
      ensures Valid() && fresh(Repr - old(Repr)) && closed == old(closed) && blocks == layout
      ensures offset == old(offset) + n && Reads(file, old(offset), b[..], old(b[..]), lo, hi, n)
      ensures err in {Nil, EOF, Failed} && (err == Nil <==> n > 0)
      ensures if err == Failed then blockReader == null else blockReader != null
      ensures log.troubles >= old(log.troubles) && reopened == old(reopened) + if err == EOF then 1 else 0
      ensures err == Failed ==> Exhausted(old(offset))
      ensures err == EOF ==> blockReader.offset < |blockReader.contents|
      ensures err == EOF ==> old(blockReader.offset) >= |old(blockReader).contents| || log.troubles > old(log.troubles)
    {
      hide BlockReader.Valid, BlockReader.Plan, Tiles, Reads, Exhausted;
      n, err := ReadBlock(b, lo, hi);
      if err != Nil && err != EOF {
        blockReader.Close();
        blockReader := null;
      } else if n == 0 {
        blockReader.Close();
        reopened := reopened + 1;
        var _ := GetNewBlockReader();
      }
    }

    /** The loop of Read; `patience` bounds how often it goes round again. Without trouble once
        is enough: the first block reader may be at the end of its block, the next is not. */
    method ReadLoop(b: array<uint8>, lo: nat, hi: nat, patience: nat) returns (n: nat, err: Error)
      requires Valid() && !closed && blockReader != null && lo < hi <= b.Length
      requires blocks == layout && offset < |file|
      modifies Repr, b
      ensures Valid() && fresh(Repr - old(Repr)) && closed == old(closed)
      ensures offset == old(offset) + n && Reads(file, old(offset), b[..], old(b[..]), lo, hi, n)
      ensures err in {Nil, Failed, StillRetrying} && (err == Nil <==> n > 0)
      ensures err == Failed ==> blockReader == null && Exhausted(old(offset))
      ensures err == StillRetrying ==> reopened == old(reopened) + patience + 1
      ensures err == StillRetrying && patience >= 1 ==> log.troubles > old(log.troubles)
      ensures err != StillRetrying ==> reopened <= old(reopened) + patience
      ensures log.troubles >= old(log.troubles) && blocks == layout
    {
      hide Valid, Reads, Exhausted;
      ReadsNothing(file, offset, b[..], lo, hi);
      var rounds := patience;
      while true
        invariant Valid() && fresh(Repr - old(Repr)) && closed == old(closed)
        invariant blocks == layout && offset == old(offset) && blockReader != null
        invariant 0 <= rounds && log.troubles >= old(log.troubles) && reopened == old(reopened) + patience - rounds
        invariant rounds < patience && log.troubles == old(log.troubles) ==> blockReader.offset < |blockReader.contents|
        invariant Reads(file, old(offset), b[..], old(b[..]), lo, hi, 0)
        decreases rounds
      {
        ghost var before := b[..];
        n, err := Round(b, lo, hi);
        ReadsOn(file, old(offset), b[..], before, old(b[..]), lo, hi, 0, n);
        if err != EOF {
          return;
        } else if rounds == 0 {
          return 0, StillRetrying;
        }
        rounds := rounds - 1;
      }
    }

    /** A read of a file fails only if the namenode did not tell the blocks, or no datanode of
        the block at the offset is left. Unless there was trouble, it does not fail at all, and
        does not go round more than once. */
    ghost predicate CausedBy(err: Error, off: nat, patience: nat)
      reads this`blocks, log
    {
      && (err == Failed ==> if blocks == [] then log.troubles > 0 else Exhausted(off))
      && (err == StillRetrying && patience >= 1 ==> log.troubles > 0)
    }

    lemma NoCause(off: nat, patience: nat)
      ensures CausedBy(Nil, off, patience) && CausedBy(EOF, off, patience)
    {
    }

    /** Fetches the block list and starts a block reader, where these are missing. */
    method EnsureReader() returns (err: Error)
      requires Valid() && offset < |file|
      modifies this`blocks, this`blockReader, this`block, this`Repr, log`troubles
      ensures Valid() && fresh(Repr - old(Repr)) && err in {Nil, Failed}
      ensures if err == Nil then blocks == layout && blockReader != null else blocks == []
      ensures log.troubles == old(log.troubles) + if err == Failed then 1 else 0
    {
      hide BlockReader.Valid, Tiles;
      if blocks == [] {
        err := GetBlocks();
        if err != Nil {
          return;
        }
      }
      err := Nil;
      if blockReader == null {
        err := GetNewBlockReader();
      }
    }

    method Read(b: array<uint8>, lo: nat, hi: nat, patience: nat) returns (n: nat, err: Error)
      requires Valid() && lo <= hi <= b.Length
      modifies Repr, b
      ensures Valid() && fresh(Repr - old(Repr)) && closed == old(closed)
      ensures offset == old(offset) + n && Reads(file, old(offset), b[..], old(b[..]), lo, hi, n)
      ensures closed ==> err == ClosedPipe
      ensures !closed && isDir ==> err == Failed
      ensures !closed && !isDir ==> (err == EOF <==> old(offset) >= |file|)
      ensures !closed && !isDir && lo < hi && old(offset) < |file| ==>
                err in {Nil, Failed, StillRetrying} && (err == Nil <==> n > 0)
      ensures !closed && !isDir && lo == hi && old(offset) < |file| ==> err == Nil
      ensures err != Nil || lo == hi ==> n == 0
      ensures log.troubles >= old(log.troubles)
      ensures !closed && !isDir ==> CausedBy(err, old(offset), patience)
      ensures err == StillRetrying ==> reopened == old(reopened) + patience + 1
      ensures err != StillRetrying ==> reopened <= old(reopened) + patience
    {
      assert offset <= |file| && {this, log} <= Repr;
      hide Valid, Reads, Exhausted;
      ReadsNothing(file, offset, b[..], lo, hi);
      if closed {
        return 0, ClosedPipe;
      } else if isDir {
        return 0, Failed;
      } else if offset >= |file| {
        return 0, EOF;
      } else if lo == hi {
        return 0, Nil;
      }
      err := EnsureReader();
      if err != Nil {
        return 0, err;
      }
      n, err := ReadLoop(b, lo, hi, patience);
    }

    /** The loop of `io.ReadFull` over this reader. */
    method ReadFull(b: array<uint8>, lo: nat, hi: nat, patience: nat) returns (n: nat, err: Error)
      requires Valid() && lo <= hi <= b.Length && !closed
      modifies Repr, b
      ensures Valid() && fresh(Repr - old(Repr)) && !closed
      ensures offset == old(offset) + n && Reads(file, old(offset), b[..], old(b[..]), lo, hi, n)
      ensures err == Nil <==> lo + n == hi
      ensures err == EOF ==> offset == |file|
      ensures err in {Nil, EOF, Failed, StillRetrying} && (isDir ==> n == 0 && err in {Nil, Failed})
      ensures log.troubles >= old(log.troubles) && (!isDir ==> CausedBy(err, offset, patience))
    {
      assert offset <= |file|;
      hide Valid, Reads, CausedBy;
      ReadsNothing(file, offset, b[..], lo, hi);
      NoCause(offset, patience);
      n, err := 0, Nil;
      while lo + n < hi && err == Nil
        invariant lo + n <= hi && Valid() && fresh(Repr - old(Repr)) && !closed
        invariant offset == old(offset) + n <= |file| && Reads(file, old(offset), b[..], old(b[..]), lo, hi, n)
        invariant err == EOF ==> offset == |file| && lo + n < hi
        invariant err in {Failed, StillRetrying} ==> lo + n < hi
        invariant err in {Nil, EOF, Failed, StillRetrying} && (isDir ==> n == 0 && err in {Nil, Failed})
        invariant log.troubles >= old(log.troubles) && (!isDir ==> CausedBy(err, offset, patience))
        decreases hi - lo - n, err == Nil
      {
        var m;
        ghost var before := b[..];
        m, err := Read(b, lo + n, hi, patience);
        ReadsOn(file, old(offset), b[..], before, old(b[..]), lo, hi, n, m);
        n := n + m;
        NoCause(offset, patience);
        ReadsInFile(file, old(offset), b[..], old(b[..]), lo, hi, n);
      }
    }

    method ReadAt(b: array<uint8>, lo: nat, hi: nat, off: int, patience: nat) returns (n: nat, err: Error)
      requires Valid() && lo <= hi <= b.Length
      modifies Repr, b
      ensures Valid() && fresh(Repr - old(Repr)) && closed == old(closed)
      ensures closed ==> n == 0 && err == ClosedPipe && offset == old(offset)
      ensures !closed && !(0 <= off <= |file|) ==> n == 0 && err == Failed && offset == old(offset)
      ensures !closed && 0 <= off <= |file| ==>
                && offset == off + n && Reads(file, off, b[..], old(b[..]), lo, hi, n)
                && (err == Nil <==> lo + n == hi) && (err == EOF ==> offset == |file|)
                && err in {Nil, EOF, Failed, StillRetrying} && (!isDir ==> CausedBy(err, offset, patience))
      ensures log.troubles >= old(log.troubles)
    {
      assert this in Repr && (blockReader != null ==> blockReader in Repr);
      hide Valid, Reads, CausedBy;
      if closed {
        return 0, ClosedPipe;
      } else if off < 0 {
        return 0, Failed;
      }
      var _, seekErr := Seek(off, 0);
      if seekErr != Nil {
        return 0, seekErr;
      }
      n, err := ReadFull(b, lo, hi, patience);
    }
  }

  datatype Request = Seek(off: int, whence: int) | Read(size: nat) | ReadAt(size: nat, off: int)

  /** What a request returned, the offset it left the reader at, and what was known then:
      whether the namenode had told the blocks, which datanodes were on record as failed, and
      how often anything had gone wrong. */
  datatype Answer = Answer(data: Bytes, err: Error, offset: nat, located: bool, down: set<Address>, troubles: nat)

  /** Why a read at this offset may fail or go on retrying. */
  ghost predicate IsExcused(layout: seq<LocatedBlock>, off: nat, patience: nat, a: Answer) {
    && (a.err == Failed ==>
          if !a.located then a.troubles > 0
          else OutOfReach(layout, off, a.down) && (Located(layout) ==> a.troubles > 0))
    && (a.err == StillRetrying && patience >= 1 ==> a.troubles > 0)
  }

  /** The answers a plain byte array with an offset would give; only errors of the
      environment are added, and each with its cause. */
  ghost predicate Answers(file: Bytes, layout: seq<LocatedBlock>, patience: nat, from: nat, r: Request, a: Answer) {
    match r
    case Seek(off, whence) =>
      var t := if whence == 0 then off else if whence == 1 then from + off else |file| + off;
      && a.data == []
      && if whence in {0, 1, 2} && 0 <= t <= |file| then a.offset == t && a.err == Nil
         else a.offset == from && a.err == Failed
    case Read(size) =>
      && |a.data| <= size && IsNext(file, from, a)
      && a.err in {Nil, EOF, Failed, StillRetrying} && (a.err == EOF <==> from >= |file|)
      && (a.err == Nil <==> a.data != [] || (size == 0 && from < |file|))
      && IsExcused(layout, from, patience, a)
    case ReadAt(size, off) =>
      if 0 <= off <= |file| then
        && |a.data| <= size && IsNext(file, off, a)
        && a.err in {Nil, EOF, Failed, StillRetrying} && (a.err == Nil <==> |a.data| == size)
        && (a.err == EOF ==> a.offset == |file|)
        && IsExcused(layout, a.offset, patience, a)
      else a.data == [] && a.offset == from && a.err == Failed
  }

  ghost predicate IsNext(file: Bytes, from: nat, a: Answer) {
    a.offset == from + |a.data| <= |file| && a.data == file[from..a.offset]
  }

  function OffsetBefore(answers: seq<Answer>, i: nat): nat
    requires i <= |answers|
  {
    if i == 0 then 0 else answers[i - 1].offset
  }

  lemma ReadIsNext(file: Bytes, from: nat, after: Bytes, before: Bytes, n: nat, a: Answer)
    requires Reads(file, from, after, before, 0, |before|, n)
    requires n <= |after| ==> a.data == after[..n] && a.offset == from + n
    ensures n <= |after| && IsNext(file, from, a)
  {
    assert after[0..n] == after[..n];
  }

  /** An answer, with what is known when it is given. */
  method GiveAnswer(f: FileReader, data: Bytes, err: Error) returns (a: Answer)
    ensures a == Answer(data, err, f.offset, f.blocks != [], f.log.at.Keys, f.log.troubles)
  {
    a := Answer(data, err, f.offset, f.blocks != [], f.log.at.Keys, f.log.troubles);
  }

  method ServeRead(f: FileReader, size: nat, patience: nat) returns (a: Answer)
    requires f.Valid() && !f.closed && !f.isDir
    modifies f.Repr
    ensures f.Valid() && fresh(f.Repr - old(f.Repr)) && !f.closed
    ensures a.offset == f.offset && a.troubles == f.log.troubles >= old(f.log.troubles)
    ensures Answers(f.file, f.layout, patience, old(f.offset), Read(size), a)
  {
    hide FileReader.Valid, Reads, IsNext, OutOfReach, Located;
    var b := new uint8[size];
    ghost var before := b[..];
    var n, err := f.Read(b, 0, size, patience);
    ReadsInFile(f.file, old(f.offset), b[..], before, 0, size, n);
    a := GiveAnswer(f, b[..n], err);
    assert b[..][..n] == b[..n];
    ReadIsNext(f.file, old(f.offset), b[..], before, n, a);
  }

  method ServeReadAt(f: FileReader, size: nat, off: int, patience: nat) returns (a: Answer)
    requires f.Valid() && !f.closed && !f.isDir
    modifies f.Repr
    ensures f.Valid() && fresh(f.Repr - old(f.Repr)) && !f.closed
    ensures a.offset == f.offset && a.troubles == f.log.troubles >= old(f.log.troubles)
    ensures Answers(f.file, f.layout, patience, old(f.offset), ReadAt(size, off), a)
  {
    hide FileReader.Valid, Reads, IsNext, OutOfReach, Located;
    var b := new uint8[size];
    ghost var before := b[..];
    var n, err := f.ReadAt(b, 0, size, off, patience);
    if 0 <= off <= |f.file| {
      ReadsInFile(f.file, off, b[..], before, 0, size, n);
    }
    a := GiveAnswer(f, b[..n], err);
    if 0 <= off <= |f.file| {
      assert b[..][..n] == b[..n];
      ReadIsNext(f.file, off, b[..], before, n, a);
    }
  }

  method Serve(f: FileReader, r: Request, patience: nat) returns (a: Answer)
    requires f.Valid() && !f.closed && !f.isDir
    modifies f.Repr
    ensures f.Valid() && fresh(f.Repr - old(f.Repr)) && !f.closed
    ensures a.offset == f.offset && a.troubles == f.log.troubles >= old(f.log.troubles)
    ensures Answers(f.file, f.layout, patience, old(f.offset), r, a)
  {
    assert f in f.Repr && (f.blockReader != null ==> f.blockReader in f.Repr);
    hide FileReader.Valid, IsNext, IsExcused;
    match r {
      case Seek(off, whence) =>
        var position, err := f.Seek(off, whence);
        a := GiveAnswer(f, [], err);
      case Read(size) =>
        a := ServeRead(f, size, patience);
      case ReadAt(size, off) =>
        a := ServeReadAt(f, size, off, patience);
    }
  }

  /** A file reader refines a byte array: over every sequence of seeks and reads, however
      the datanodes behave, each answer is one that the array would give, or an error with its
      cause. Without trouble there are no such errors. */
  method Session(file: Bytes, layout: seq<LocatedBlock>, requests: seq<Request>, patience: nat)
    returns (answers: seq<Answer>, troubles: nat)
    requires Tiles(layout, 0, file)
    ensures |answers| == |requests|
    ensures forall i :: 0 <= i < |answers| ==>
                          Answers(file, layout, patience, OffsetBefore(answers, i), requests[i], answers[i])
    ensures Located(layout) && patience >= 1 && troubles == 0 ==>
              forall i :: 0 <= i < |answers| ==> ArrayAnswer(file, requests[i], answers[i])
  {
    hide FileReader.Valid, Answers, Tiles, Located, ArrayAnswer;
    var log := new FailureLog(map[], 1);
    var f := new FileReader(file, false, layout, log);
    answers := [];
    while |answers| < |requests|
      invariant |answers| <= |requests| && f.Valid() && fresh(f.Repr)
      invariant !f.closed && !f.isDir && f.file == file && f.layout == layout
      invariant f.offset == OffsetBefore(answers, |answers|)
      invariant forall i :: 0 <= i < |answers| ==>
                              Answers(file, layout, patience, OffsetBefore(answers, i), requests[i], answers[i])
      invariant forall i :: 0 <= i < |answers| ==> answers[i].troubles <= f.log.troubles
    {
      var a := Serve(f, requests[|answers|], patience);
      ghost var was := answers;
      answers := answers + [a];
      assert forall i :: 0 <= i <= |was| ==> OffsetBefore(answers, i) == OffsetBefore(was, i);
    }
    troubles := f.log.troubles;
    if Located(layout) && patience >= 1 && troubles == 0 {
      forall i | 0 <= i < |answers|
        ensures ArrayAnswer(file, requests[i], answers[i])
      {
        WithoutTrouble(file, layout, patience, OffsetBefore(answers, i), requests[i], answers[i]);
      }
    }
  }

  /** What the array itself would answer. */
  predicate ArrayAnswer(file: Bytes, r: Request, a: Answer) {
    match r
    case Seek(_, _) => true
    case Read(_) => a.err in {Nil, EOF}
    case ReadAt(_, off) => 0 <= off <= |file| ==> a.err in {Nil, EOF}
  }

  /** As long as nothing goes wrong, an answer is just what the array gives. */
  lemma WithoutTrouble(file: Bytes, layout: seq<LocatedBlock>, patience: nat, from: nat, r: Request, a: Answer)
    requires Answers(file, layout, patience, from, r, a) && Located(layout) && patience >= 1 && a.troubles == 0
    ensures ArrayAnswer(file, r, a)
  {
  }

  /** Reading to the end, `size` bytes at a time: an EOF means that the whole file was read,
      whatever streams and connections ended early. Without trouble, that is how it ends. */
  method ReadAll(file: Bytes, layout: seq<LocatedBlock>, size: nat, patience: nat)
    returns (output: Bytes, err: Error, troubles: nat)
    requires Tiles(layout, 0, file) && size > 0
    ensures output <= file && err in {EOF, Failed, StillRetrying}
    ensures err == EOF ==> output == file
    ensures Located(layout) && patience >= 1 && troubles == 0 ==> err == EOF
  {
    hide FileReader.Valid, Tiles, Located, OutOfReach;
    var log := new FailureLog(map[], 1);
    var f := new FileReader(file, false, layout, log);
    output, err := [], Nil;
    while err == Nil
      invariant f.Valid() && fresh(f.Repr) && !f.closed && !f.isDir && f.file == file && f.layout == layout
      invariant f.offset <= |file| && output == file[..f.offset] && err in {Nil, EOF, Failed, StillRetrying}
      invariant err == EOF ==> f.offset == |file|
      invariant Located(layout) && patience >= 1 && err in {Failed, StillRetrying} ==> f.log.troubles > 0
      decreases err == Nil, |file| - f.offset
    {
      ghost var from := f.offset;
      var a := ServeRead(f, size, patience);
      assert a.data == file[from..f.offset];
      output, err := output + a.data, a.err;
    }
    troubles := f.log.troubles;
  }
}
