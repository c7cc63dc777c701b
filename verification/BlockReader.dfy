/**
 Reading one block (internal/rpc/block_reader.go): connecting to one datanode after the
 other, discarding up to the wanted offset, and failing over in the middle of the block.
 */
module BlockReaders {
  import opened Common
  import opened ReadStream
  import opened Failover

  const DISCARD_BUFFER := 8192

  /** The stream's connection has failed or ended, or its check has rejected a chunk, or it has
      begun the last packet, after which it reports EOF whatever is left in its buffer. */
  predicate Troubled(s: BlockReadStream)
    reads s
  {
    s.broken || s.ended || s.rejected || s.lastPacket
  }

  /** `io.CopyN(ioutil.Discard, stream, amount)`. */
  method Discard(s: BlockReadStream, amount: nat) returns (err: Error)
    requires s.Valid() && amount < |s.Remaining()|
    modifies s
    ensures err in {Nil, Failed} && (err == Failed ==> Troubled(s))
    ensures err == Nil ==> s.Valid() && s.Remaining() == old(s.Remaining())[amount..]
  {
    hide BlockReadStream.Valid, BlockReadStream.Remaining;
    var buffer := new uint8[DISCARD_BUFFER];
    var left := amount;
    while left > 0
      invariant 0 <= left <= amount && s.Valid() && fresh(buffer)
      invariant s.Remaining() == old(s.Remaining())[amount - left..]
    {
      var n, e := s.Read(buffer, 0, Min(left, DISCARD_BUFFER));
      if e != Nil {
        return Failed;
      }
      left := left - n;
    }
    err := Nil;
  }

  /** What a datanode that accepts a request sends. */
  datatype Response = Response(frames: seq<Frame>, chunkOffset: int, chunkSize: int, castagnoli: bool)

  class BlockReader {
    const contents: Bytes               // what the block holds
    const locations: seq<Address>
    const log: FailureLog
    var offset: nat
    var datanodes: DatanodeFailover?
    var stream: BlockReadStream?
    var closed: bool
    var tried: seq<Address>             // datanodes popped off the list so far
    ghost var Repr: set<object>

    ghost predicate Consistent()
      reads this, Repr
    {
      && Accounted()
      && (stream != null ==> stream.Valid() && offset <= |contents| && stream.Remaining() == contents[offset..])
    }

    /** Consistent up to what the stream still has to deliver. */
    ghost predicate Accounted()
      reads this, Repr
    {
      && {this, log} <= Repr && (stream != null ==> stream in Repr) && (datanodes != null ==> datanodes in Repr)
      && log.Valid()
      && (datanodes == null ==> stream == null && tried == [])
      && (stream != null ==> tried != [])
      && (tried != [] ==> datanodes != null && datanodes.currentDatanode == tried[|tried| - 1])
      && (datanodes != null ==> multiset(tried) + multiset(datanodes.datanodes) == multiset(locations))
    }

    /** The first n datanodes tried are on record as failed. */
    ghost predicate Noted(n: int)
      reads this`tried, log`at
    {
      forall i :: 0 <= i < n && i < |tried| ==> tried[i] in log.at
    }

    /** How many datanodes have been given up. */
    function GivenUp(): int
      reads this
    {
      |tried| - if stream == null then 0 else 1
    }

    /** All datanodes tried but the one being read from have been given up; that is on record,
        and each of them has caused trouble. */
    ghost predicate Valid()
      reads this, Repr
    {
      Consistent() && Noted(GivenUp()) && GivenUp() <= log.troubles
    }

    /** Every datanode has been tried and given up, and each of them caused trouble. */
    ghost predicate AllGivenUp()
      reads this, log
    {
      && stream == null && multiset(tried) == multiset(locations)
      && |locations| <= log.troubles && forall a :: a in locations ==> a in log.at
    }

    /** The datanodes tried so far, and then the others in the order the record gives them. */
    ghost function Plan(): seq<Address>
      reads this`tried, this`datanodes, datanodes, log`at
    {
      tried + DrainOrder(if datanodes == null then locations else datanodes.datanodes, log.at)
    }

    constructor (contents: Bytes, locations: seq<Address>, offset: nat, log: FailureLog)
      requires log.Valid()
      ensures Valid() && !closed && this.offset == offset && this.contents == contents
      ensures this.locations == locations && this.log == log && this in Repr && fresh(Repr - {log})
      ensures datanodes == null
    {
      this.contents, this.locations, this.offset, this.log := contents, locations, offset, log;
      datanodes, stream, closed, tried := null, null, false, [];
      Repr := {this, log};
    }

    /** An honest datanode serves the block from a chunk boundary at or before the wanted
        offset up to its end. */
    predicate HonestResponse(frames: seq<Frame>, chunkOffset: int, chunkSize: int)
      reads this
    {
      && 0 <= chunkOffset <= offset && offset <= |contents| && chunkSize > 0
      && HonestFrames(frames) && FrameData(frames) == contents[chunkOffset..]
    }

    /** How many more times the retry loop can go round. */
    ghost function Attempts(): nat
      requires datanodes != null
      reads this, datanodes
    {
      2 * |datanodes.datanodes| + if stream == null then 0 else 1
    }

    /** Dials a datanode, sends it the request and reads its response. Any of it may fail. */
    method Dial(address: Address) returns (answer: Option<Response>)
      requires log.Valid()
      modifies log`troubles
      ensures log.Valid() && log.troubles == old(log.troubles) + if answer == None then 1 else 0
      ensures answer.Some? ==> var r := answer.value; HonestResponse(r.frames, r.chunkOffset, r.chunkSize)
    {
      var frames: seq<Frame> := *;
      var chunkOffset: int, chunkSize: int := *, *;
      var connected: bool, castagnoli: bool := *, *;
      if connected && HonestResponse(frames, chunkOffset, chunkSize) {
        return Some(Response(frames, chunkOffset, chunkSize, castagnoli));
      }
      log.troubles := log.troubles + 1;
      answer := None;
    }

    /** Connects to a datanode and discards what it sends before the wanted offset. There is no
        stream only if the datanode or the connection to it has caused trouble. */
    method OpenStream(address: Address) returns (s: BlockReadStream?)
      requires offset < |contents| && log.Valid()
      modifies log`troubles
      ensures s != null ==> fresh(s) && s.Valid() && s.Remaining() == contents[offset..]
      ensures log.Valid() && log.troubles == old(log.troubles) + if s == null then 1 else 0
    {
      hide HonestFrames, BlockReadStream.Valid, BlockReadStream.Remaining, FrameData;
      var answer := Dial(address);
      if answer == None {
        return null;
      }
      var r := answer.value;
      s := new BlockReadStream(r.frames, r.chunkSize, if r.castagnoli then Crc32C else Crc32);
      var amountToDiscard := offset - r.chunkOffset;
      var err := Discard(s, amountToDiscard);
      if err != Nil {
        log.troubles := log.troubles + if Troubled(s) then 1 else 0;
        return null;
      }
      assert contents[r.chunkOffset..][amountToDiscard..] == contents[offset..];
    }

    /** Takes the next datanode off the list: the first of those that failed longest ago. */
    method TakeNext() returns (address: Address)
      requires Valid() && datanodes != null && datanodes.datanodes != [] && stream == null
      modifies this`tried, datanodes
      ensures Consistent() && Noted(|tried| - 1) && tried == old(tried) + [address]
      ensures |datanodes.datanodes| == old(|datanodes.datanodes|) - 1
      ensures Plan() == old(Plan())
      ensures exists i: nat :: IsPick(old(datanodes.datanodes), log.at, i) && address == old(datanodes.datanodes)[i]
    {
      hide BlockReadStream.Valid, BlockReadStream.Remaining, IsPick, DrainOrder, Without;
      ghost var list := datanodes.datanodes;
      ghost var i;
      address, i := datanodes.Next(log);
      TakeKeepsAll(tried, list, locations, i);
      DrainStep(list, log.at, i);
      tried := tried + [address];
    }

    /** Connects to the next datanode. Dialling, the request and the response may fail; so may
        setting the deadline, which leaves the stream in place. */
    method ConnectNext() returns (err: Error)
      requires Valid() && datanodes != null && datanodes.datanodes != [] && stream == null && offset < |contents|
      modifies this`stream, this`tried, this`Repr, datanodes, log`troubles
      ensures Consistent() && Noted(|tried| - 1) && err in {Nil, Failed} && Attempts() < old(Attempts())
      ensures log.troubles == old(log.troubles) + if err == Failed then 1 else 0
      ensures Plan() == old(Plan())
      ensures err == Nil ==> stream != null
      ensures fresh(Repr - old(Repr)) && datanodes == old(datanodes)
      ensures |tried| == old(|tried|) + 1
    {
      hide BlockReadStream.Valid, BlockReadStream.Remaining, Plan, Noted, IsPick;
      var address := TakeNext();
      stream := OpenStream(address);
      if stream == null {
        return Failed;
      }
      Repr := Repr + {stream};
      var deadlineSet: bool := *;
      if deadlineSet {
        return Nil;
      }
      log.troubles := log.troubles + 1;
      err := Failed;
    }

    /** Connects, and notes a failure to do so. */
    method TryNext() returns (err: Error)
      requires Valid() && datanodes != null && datanodes.datanodes != [] && stream == null && offset < |contents|
      modifies this`stream, this`tried, this`Repr, datanodes, log
      ensures Valid() && log.Valid() && err in {Nil, Failed} && Attempts() < old(Attempts())
      ensures log.troubles == old(log.troubles) + if err == Failed then 1 else 0
      ensures Distinct(locations) ==> Plan() == old(Plan())
      ensures err == Nil ==> stream != null
      ensures fresh(Repr - old(Repr)) && datanodes == old(datanodes)
    {
      hide BlockReadStream.Valid, BlockReadStream.Remaining, Plan, Distinct;
      err := ConnectNext();
      if err != Nil {
        NoteFailure(err);
      }
    }

    /** What the caller of Read finds: the next n bytes of the block in its buffer. */
    ghost predicate Continues(from: nat, after: Bytes, before: Bytes, lo: nat, hi: nat, n: nat)
      reads this`offset
    {
      && lo + n <= hi <= |after| == |before| && after[..lo] == before[..lo]
      && offset == from + n
      && (n > 0 ==> offset <= |contents| && after[lo..lo + n] == contents[from..offset])
    }

    /** Reads from the open stream. A failure drops the stream; unless it brought some bytes,
        the retry loop goes on. An EOF comes only from a connection that has ended or a last
        packet that has begun. */
    method ReadFromStream(b: array<uint8>, lo: nat, hi: nat) returns (n: nat, err: Error, done: bool)
      requires Valid() && datanodes != null && stream != null && offset < |contents| && lo <= hi <= b.Length
      modifies this`offset, this`stream, stream, datanodes`err, log, b
      ensures Valid() && Continues(old(offset), b[..], old(b[..]), lo, hi, n)
      ensures stream == null || stream == old(stream)
      ensures !done ==> n == 0 && stream == null
      ensures stream == null ==> old(stream).broken || old(stream).ended || old(stream).rejected
      ensures done && err == EOF ==> stream != null && (stream.ended || stream.lastPacket)
      ensures done && err == Nil && stream != null ==>
                Serves(old(|stream.chunk|), hi - lo, old(stream.Left()), stream.chunkSize, n, |stream.chunk|)
      ensures log.troubles == old(log.troubles) + if stream == null || (done && err == EOF) then 1 else 0
      ensures Distinct(locations) ==> Plan() == old(Plan())
      ensures done ==> err in {Nil, EOF} && if err == Nil then n > 0 || lo == hi else n == 0
    {
      hide BlockReadStream.Valid, BlockReadStream.Remaining, BlockReadStream.Left, Serves, Plan, Noted, Distinct;
      hide Delivered, Continues;
      n, err := stream.Read(b, lo, hi);
      offset := offset + n;
      DeliveredContinues(old(offset), b[..], old(b[..]), lo, hi, n, err);
      if err != Nil {
        log.troubles := log.troubles + if Troubled(stream) then 1 else 0;
      }
      if err != Nil && err != EOF {
        DropStream(err);
        return n, Nil, n > 0;
      }
      done := true;
    }

    /** If there was an EOF, the stream is at an end. */
    predicate EndsFor(eof: bool)
      reads this, stream
    {
      eof ==> stream != null && (stream.ended || stream.lastPacket)
    }

    /** One round of the retry loop: connect if there is no stream, then read. */
    method Round(b: array<uint8>, lo: nat, hi: nat) returns (n: nat, err: Error, done: bool)
      requires Valid() && datanodes != null && !closed && offset < |contents| && lo <= hi <= b.Length
      requires stream != null || datanodes.datanodes != []
      modifies Repr, b
      ensures Valid() && log.Valid() && fresh(Repr - old(Repr)) && !closed && datanodes != null
      ensures Continues(old(offset), b[..], old(b[..]), lo, hi, n)
      ensures !done ==> n == 0 && Attempts() < old(Attempts())
      ensures EndsFor(done && err == EOF) && log.troubles >= old(log.troubles)
      ensures !done || err == EOF ==> log.troubles > old(log.troubles)
      ensures Distinct(locations) ==> Plan() == old(Plan())
      ensures done ==> err in {Nil, EOF} && if err == Nil then n > 0 || lo == hi else n == 0
    {
      Members();
      hide Valid, Consistent, Noted;
      if stream == null {
        err := TryNext();
        if err != Nil {
          return 0, err, false;
        }
        Members();
      }
      n, err, done := ReadFromStream(b, lo, hi);
      Members();
    }

    /** The main retry loop. */
    method Retry(b: array<uint8>, lo: nat, hi: nat) returns (n: nat, err: Error)
      requires Valid() && datanodes != null && !closed && offset < |contents| && lo <= hi <= b.Length
      modifies Repr, b
      ensures Valid() && log.Valid() && fresh(Repr - old(Repr)) && !closed
      ensures Continues(old(offset), b[..], old(b[..]), lo, hi, n)
      ensures err in {Nil, EOF, Failed} && if err == Nil then n > 0 || lo == hi else n == 0
      ensures err == Failed ==> AllGivenUp()
      ensures EndsFor(err == EOF) && log.troubles >= old(log.troubles) && (err == EOF ==> log.troubles > old(log.troubles))
      ensures Distinct(locations) ==> Plan() == old(Plan())
    {
      Members();
      hide Valid, Plan, Distinct;
      while stream != null || |datanodes.datanodes| > 0
        invariant datanodes != null && Valid() && log.Valid() && fresh(Repr - old(Repr)) && !closed
        invariant offset == old(offset) && b[..lo] == old(b[..lo]) && log.troubles >= old(log.troubles)
        invariant Distinct(locations) ==> Plan() == old(Plan())
        decreases Attempts()
      {
        var done;
        n, err, done := Round(b, lo, hi);
        if done {
          return;
        }
      }
      AllTried();
      n, err := 0, Failed;
    }

    /** What the stream delivered are the bytes of the block at the offset. */
    lemma DeliveredContinues(from: nat, after: Bytes, before: Bytes, lo: nat, hi: nat, n: nat, err: Error)
      requires from < |contents| && Delivered(contents[from..], after, before, lo, hi, n, err) && offset == from + n
      ensures Continues(from, after, before, lo, hi, n)
      ensures offset <= |contents| && contents[from..][n..] == contents[offset..]
      ensures err in {Nil, EOF, Failed} && (err == EOF ==> n == 0) && (err == Nil ==> n > 0 || lo == hi)
    {
      assert contents[from..][..n] == contents[from..offset];
      assert contents[from..][n..] == contents[offset..];
    }

    lemma NothingRead(buffer: Bytes, lo: nat, hi: nat)
      requires lo <= hi <= |buffer|
      ensures Continues(offset, buffer, buffer, lo, hi, 0)
    {
    }

    lemma Members()
      requires Valid()
      ensures {this, log} <= Repr && log.Valid()
      ensures (stream != null ==> stream in Repr) && (datanodes != null ==> datanodes in Repr)
    {
    }

    /** Makes the list of datanodes the first time it is needed. */
    method EnsureDatanodes()
      requires Valid()
      modifies this`datanodes, this`Repr
      ensures Valid() && fresh(Repr - old(Repr)) && datanodes != null
      ensures this in Repr && log.Valid() && Plan() == old(Plan())
    {
      if datanodes == null {
        datanodes := new DatanodeFailover(locations);
        Repr := Repr + {datanodes};
      }
    }

    method Read(b: array<uint8>, lo: nat, hi: nat) returns (n: nat, err: Error)
      requires Valid() && lo <= hi <= b.Length
      modifies Repr, b
      ensures Valid() && log.Valid() && fresh(Repr - old(Repr)) && log.troubles >= old(log.troubles)
      ensures Continues(old(offset), b[..], old(b[..]), lo, hi, n)
      ensures Distinct(locations) ==> Plan() == old(Plan())
      ensures old(closed) ==> n == 0 && err == ClosedPipe && closed
      ensures !old(closed) && old(offset) >= |contents| ==> n == 0 && err == EOF && closed
      ensures !old(closed) && old(offset) < |contents| ==>
                && !closed && err in {Nil, EOF, Failed}
                && (if err == Nil then n > 0 || lo == hi else n == 0)
                && (err == Failed ==> AllGivenUp())
                && EndsFor(err == EOF) && (err == EOF ==> log.troubles > old(log.troubles))
    {
      Members();
      hide Valid, Plan, Distinct, EndsFor, AllGivenUp, Continues;
      NothingRead(b[..], lo, hi);
      if closed {
        return 0, ClosedPipe;
      } else if offset >= |contents| {
        Close();
        return 0, EOF;
      }
      EnsureDatanodes();
      n, err := Retry(b, lo, hi);
    }

    method DropStream(err: Error)
      requires Accounted() && stream != null && Noted(|tried| - 1) && |tried| <= log.troubles
      modifies this`stream, datanodes`err, log`at, log`now
      ensures Valid() && stream == null
      ensures Distinct(locations) ==> Plan() == old(Plan())
    {
      hide Plan, Distinct, BlockReadStream.Valid, BlockReadStream.Remaining;
      stream := null;
      NoteFailure(err);
    }

    method NoteFailure(err: Error)
      requires Consistent() && Noted(|tried| - 1) && tried != []
      modifies datanodes`err, log`at, log`now
      ensures Consistent() && Noted(|tried|) && log.Valid()
      ensures Distinct(locations) ==> Plan() == old(Plan())
    {
      hide DrainOrder;
      ghost var before := log.at;
      datanodes.RecordFailure(log, err);
      if Distinct(locations) {
        TakenIsGone(tried, datanodes.datanodes, locations, datanodes.currentDatanode);
        DrainIgnoresOthers(datanodes.datanodes, before, datanodes.currentDatanode, log.now);
      }
    }

    lemma AllTried()
      requires Valid() && datanodes != null && datanodes.datanodes == []
      ensures multiset(tried) == multiset(locations)
      ensures stream == null ==> AllGivenUp()
    {
      assert multiset(tried) + multiset([]) == multiset(tried);
      assert |multiset(tried)| == |multiset(locations)|;
      if stream == null {
        forall a | a in locations
          ensures a in log.at
        {
          assert a in multiset(locations) && a in multiset(tried) && a in tried;
        }
      }
    }

    method Close()
      requires Valid()
      modifies this`closed
      ensures Valid() && log.Valid() && closed && Plan() == old(Plan())
    {
      closed := true;
    }
  }

  /** Contiguous failover: whatever connections fail and wherever they do, the bytes a block
      reader returns are consecutive bytes of the block from its starting offset. */
  method ReadBlock(contents: Bytes, locations: seq<Address>, offset: nat, sizes: seq<nat>)
    returns (output: Bytes)
    requires offset <= |contents|
    ensures output <= contents[offset..]
  {
    hide BlockReader.Valid;
    var log := new FailureLog(map[], 1);
    var r := new BlockReader(contents, locations, offset, log);
    output := [];
    var i := 0;
    while i < |sizes|
      invariant i <= |sizes| && r.Valid() && fresh(r.Repr) && r.contents == contents
      invariant offset <= r.offset <= |contents| && output == contents[offset..r.offset]
    {
      var b := new uint8[sizes[i]];
      ghost var from := r.offset;
      var n, err := r.Read(b, 0, b.Length);
      if n > 0 {
        assert b[..n] == b[..][0..n] == contents[from..r.offset];
        output := output + b[..n];
        SliceSplit(contents, offset, from, r.offset);
      }
      i := i + 1;
    }
    assert contents[offset..][..r.offset - offset] == contents[offset..r.offset];
  }
}
