# A Dafny model of the HDFS client

This project models the data paths of the Go HDFS client and proves what they promise:
what a writer was told is durable is what the datanodes acknowledged, and what a reader
returns is what the file holds. Around these two it covers failover, RPC to the namenodes,
message framing, directory paging, checksum padding and the search for the last lines of a
file.

`dafny verify dfyconfig.toml` checks the whole project.

## How it is built

| files | part of the client |
|---|---|
| `Packets`, `Acks`, `Wire` | cutting buffered bytes into packets, matching acks to packets, the byte stream to a datanode |
| `WriteProtocol`, `WriteSafety`, `WriteTheorems`, `WriteCalls`, `WriteTermination` | the writer, the ack loop and the heartbeat sender of a write stream as a step relation; its invariant; the theorems about all runs; what each call does; why calls end |
| `WriteStream`, `BlockWriter`, `FileWriter` | the write path as its callers see it: stream, block, file |
| `ReadStream`, `ReadSizes`, `BlockReader`, `FileReader` | the read path: stream and the sizes of reads that suit it, block, file |
| `WriteThenRead` | both paths together |
| `Failover`, `Namenode` | choice of datanodes; RPC with retry |
| `Framing`, `Readdir`, `ChecksumPadding`, `TailLines` | framing and the loops of `Readdir`, `Checksum` and `tailLines` |

A write stream appears twice. `WriteProtocol` has all three goroutines, the bounded
channel, the lock and every interleaving of them. `WriteStream` has one object whose calls
run one after the other. `CallsAreSequential` ties them together. It takes any run, any call
made at its end and any later state before the next call, and proves of them what the methods
of `BlockWriteStream` have as their postconditions: the bytes accepted, `FlushOutcome` or
`FinishOutcome` from the state in which the call began, and what calls on a closed stream do.
Everything above the stream builds on these.

Objects that the source updates in place are classes with the same fields. Fields that
record a history (`accepted`, `packets`, `acked`, `log`, `tried`, `conns`) are added so that
contracts can speak about whole runs. Whatever the outside world decides (does a dial
succeed, how many bytes arrive, what does an ack say, how much time passes) is an arbitrary
choice in a method body, so contracts hold for all of it.

Contracts also say why a call fails. Fields such as `writeErrors`, `dialErrors`, `faults`,
`troubles`, `broken` and `rejected` count or note what went wrong, at the point where it does.
An error is then tied to its cause, and whole sessions to the absence of any: a file to which
nothing happens outside is written without an error, and one that is read without trouble
answers like a byte array (`WriteNewFile`, `FileReaders.Session`, `ReadAll`, `RoundTrip`,
`Namenode.Session`).

## What is assumed

- Datanodes that are read from are honest: they send the block's bytes from a position at
  or before the one asked for, with the right checksums, in non-empty packets followed by an
  empty last one. Connections may end or fail anywhere. Nothing is assumed of datanodes that
  are written to.
- A connection that has reached EOF stays there.
- A namenode echoes the id of a request it received on the same connection, not necessarily
  of the latest; a response is read whole or not at all.
- The blocks the namenode reports tile the file; a directory listing is sorted, does not
  change, and comes in batches of at least one entry.
- CRC-32 and CRC-32C are arbitrary functions of the bytes they cover.
- Integers are unbounded except where the source's width matters: the 32-bit request id, the
  32-bit packet length and the varint limits are modelled as they are.

## What the code does not promise

Some properties one might expect are false of the code. The model keeps the code's behaviour,
gives the case that breaks the property and states when it holds.

- A second `finish` returns nil even if the first one failed (`SecondFinishHidesFailure`). What
  counts is the first: without a failed connection write it returns nil exactly if everything
  was acknowledged (`FinishIsExact`), and whatever is called later, everything is acknowledged
  exactly if it did (`FirstFinishDecides`, `SecondFinish`).
- A read stream reports EOF once the last packet has begun, even while buffered bytes have not
  been handed out. An EOF before the connection ends leaves exactly those undelivered
  (`BlockReadStream.Read`). There are none if two reads in a row always ask for a whole chunk,
  those before the read that is told EOF (`ReadSequence`). If two ask for less, there are packets
  that are cut off (`EarlyEOF`). `FileReader` gets the rest through a new block reader.
- A large read checks a partial last chunk together with stale bytes of the caller's buffer, so
  it can reject right data (`PartialChunkRejected`). It is safe from that, whatever the checksum
  function, exactly if the buffer is no longer than the rest of the packet or that rest is in
  whole chunks (`LargeReadIsSafe`). The bytes are delivered all the same.
- `readPrefixedMessage` recovers a message only if the first read brings five bytes, or the
  whole frame if that is shorter (`PrefixedMessageRoundTrip`). Zeros fill up a shorter read and
  count as message bytes, so part of a message can pass for one (`AcceptedMessage`,
  `CutMessageAccepted`).
- A length prefix is checked against the packet with the prefix still on, so one that only
  exceeds the bytes behind it makes the reader panic (`WhenReaderCrashes`).
- `tailLines` never searches the first `size mod 16384` bytes of a file longer than one window
  (`SearchIsExact`, `SearchMisses`). It can be trusted with every file of a size exactly if that
  is at most one window or a whole number of them (`SizeDecides`).
- Checksum padding doubles at most once per block, so long block sums can outgrow it
  (`LongSumIsNotPadded`). The source then asks for a slice of negative length, which panics. `PaddingIsExact` says exactly when the padding is right.
- Request ids wrap around after 2^31 calls. Ids are in the order of their calls exactly as long
  as both calls are on the same side of that (`WhenIdsAreOrdered`); responses are still told
  apart for 2^32 calls.
- A directory page that fails after it has fetched a batch has moved the reader past that batch,
  so the next page skips it (`FailedPageSkips`). Pages return the listing without a gap exactly
  if each failing page fails at its first request (`WhenNothingIsLost`), which pages of one entry
  always do (`SinglesLoseNothing`).
- With a block size of zero or less a file takes no bytes: a Write of any starts new blocks for
  ever, or until one fails (`WriteAll`, `NoRoom`).
- `tailLines` asked for zero lines or fewer indexes past its list of line breaks (`TailLines`).

The comment on `Readdir` says that with n <= 0 an error comes with the entries read so far; the
code returns none, and the model follows the code.

## Model

| member | source | states |
|---|---|---|
| `Packets.NextPacketWellFormed` | internal/rpc/block_write_stream.go:184-225 | a packet made from a non-empty buffer has data, at most 65536 bytes, never crosses out of a chunk it starts inside of, and carries the checksums of its data |
| `Packets.NextPacketIsMaximal` | internal/rpc/block_write_stream.go:184-197 | it takes the whole buffer, or has full size, or just completes the chunk it started in |
| `Packets.ChecksumPerBlockChunk` | internal/rpc/block_write_stream.go:190-222 | from any starting offset, a packet has one checksum per chunk of the block it touches, and slot i covers exactly the packet's bytes in that chunk |
| `Packets.FlushKeepsPacketised` | internal/rpc/block_write_stream.go:164-182 | however far the flush loop gets, packet data followed by the buffer is all that was accepted, and packets stay numbered and contiguous |
| `Packets.NumberedAt` | internal/rpc/block_write_stream.go:170-173 | packet i has seqno i+1 and an offset that is the starting offset plus the data before it |
| `Acks.Judge` | internal/rpc/block_write_stream.go:240-268 | an ack matches exactly if it is readable, all SUCCESS and has the packet's seqno; it is skipped exactly if it is all SUCCESS and a heartbeat's |
| `Acks.ReadAckFor` | internal/rpc/block_write_stream.go:241-263 | the inner loop stops at the first ack that fails or is not a heartbeat's, with the verdict on it |
| `Acks.AckPackets` | internal/rpc/block_write_stream.go:229-276 | the ack loop either matches every packet in order or stops at the first bad ack and says why |
| `Wire.ParseRoundTrip` | internal/rpc/block_write_stream.go:290-341 | reading the wire by the lengths in the headers recovers exactly the packets completely written, whatever part of one more follows |
| `WriteSafety.StepKeepsInv` | internal/rpc/block_write_stream.go:104-385 | every step of writer, ack loop and heartbeat sender keeps the invariant on data, channel, acks, close signals, lock, wire and call results |
| `WriteSafety.RunKeepsInv` | internal/rpc/block_write_stream.go:69-385 | so every reachable state satisfies it |
| `WriteTheorems.AckSoundness` | internal/rpc/block_write_stream.go:120-159 | the first finish returns nil only if every packet enqueued, the empty last one included, was answered in order with its own seqno and only SUCCESS |
| `WriteTheorems.StreamDurability` | internal/rpc/block_write_stream.go:104-159 | then the data of the acknowledged packets is everything handed to Write, numbered and contiguous from the starting offset |
| `WriteTheorems.AcknowledgedWasSent` | internal/rpc/block_write_stream.go:302-341 | and, without a failed connection write, what the datanode read off the wire is what it acknowledged |
| `WriteTheorems.NothingIsLost` | internal/rpc/block_write_stream.go:104-225 | in every reachable state, after errors too, packets sent and buffer make up all bytes accepted |
| `WriteCalls.CallsAreSequential` | internal/rpc/block_write_stream.go:104-182 | for every run, every call made at its end and every state up to the next call: a Write on an open stream has added its bytes and, when it returns, flushed the old buffer with them behind it; Flush and the first finish do theirs from the state in which they began; a closed stream is left as it was, with ErrClosedPipe, the ack error, nil or the panic on the closed channel |
| `WriteCalls.StepServes` | internal/rpc/block_write_stream.go:164-276 | no step but a new call changes what was accepted, whether the stream is closed, or for which call the writer works |
| `WriteTheorems.AckErrorsStayHidden` | internal/rpc/block_write_stream.go:278-288 | no ack error is visible while the stream is open |
| `WriteTheorems.WireSafety` | internal/rpc/block_write_stream.go:322-369 | without a failed connection write, frames are never mixed, and apart from heartbeats they are the enqueued packets minus at most the one in hand |
| `WriteTheorems.WindowSafety` | internal/rpc/block_write_stream.go:169-179 | while there is no ack error, at most six packets are written and unacknowledged |
| `WriteTheorems.NoDeadlock` | internal/rpc/block_write_stream.go:229-276 | while a call runs, the writer or the ack loop can move, or a heartbeat that holds the lock can finish, or the datanode owes an ack for a packet it has in full |
| `WriteTheorems.BlockedWriter` | internal/rpc/block_write_stream.go:126-131 | a writer waiting for the ack loop can count on it, or on the datanode |
| `WriteTheorems.FullChannelDrains` | internal/rpc/block_write_stream.go:271-275 | a writer blocked on the full channel finds the ack loop able to take a packet, draining, or waiting for a packet that is on the wire |
| `WriteTheorems.SecondFinishHidesFailure` | internal/rpc/block_write_stream.go:120-137 | a run in which the second finish returns nil although a packet was never acknowledged |
| `WriteCalls.RunKeepsCaused` | internal/rpc/block_write_stream.go:118-182 | in every run, a Write fails only if a connection write has failed, a Flush or first finish only if that or a bad ack is behind it |
| `WriteCalls.FinishIsExact` | internal/rpc/block_write_stream.go:118-159 | the first finish returns nil only if every packet, the last one included, was acknowledged; without a failed connection write, also if |
| `WriteCalls.ErrorsAreExact` | internal/rpc/block_write_stream.go:104-182 | in every interleaving, a call on an open stream fails exactly if a connection write for one of its packets failed or, for finish, an ack was bad; failed heartbeats are never reported |
| `WriteCalls.FinishIsFinal` | internal/rpc/block_write_stream.go:104-182 | after the first finish no call and no step changes what was accepted, sent or acknowledged |
| `WriteCalls.FirstFinishDecides` | internal/rpc/block_write_stream.go:118-159 | so after any further calls everything is acknowledged exactly if the first finish returned nil |
| `WriteCalls.SecondFinish` | internal/rpc/block_write_stream.go:118-124 | the nil of a second finish means that everything is acknowledged exactly if the first returned nil |
| `WriteTermination.StepUsesWork` | internal/rpc/block_write_stream.go:104-288 | every step of writer and ack loop, the skipping of a heartbeat's ack aside, uses up some of a finite amount of work |
| `WriteTermination.CallsEnd` | internal/rpc/block_write_stream.go:104-288 | so between two calls only boundedly many such steps happen in any run |
| `WriteTermination.CallReturns` | internal/rpc/block_write_stream.go:104-288 | and from every reachable state without a failed connection write, the goroutines' own steps and the datanode's answers, or its hanging up, can end the running call; with answers of success and nothing wrong so far, it ends without an error |
| `WriteStream.FillChecksums` | internal/rpc/block_write_stream.go:212-222 | the in-place loop produces the CRC of every chunk |
| `WriteStream.BlockWriteStream.MakePacket` | internal/rpc/block_write_stream.go:184-225 | returns the next packet and takes its bytes off the buffer |
| `WriteStream.BlockWriteStream.EmitPacket` | internal/rpc/block_write_stream.go:169-179 | one round of the flush loop, which fails exactly if the write does |
| `WriteStream.BlockWriteStream.FlushOpen` | internal/rpc/block_write_stream.go:169-181 | the flush loop keeps the packets numbered and ends with nothing more to send or at the first failed write |
| `WriteStream.BlockWriteStream.Flush` | internal/rpc/block_write_stream.go:164-182 | flush outcome; fails exactly if a connection write does; after nil fewer than 65536 bytes remain, none if forced; after a finish it fails, panics or does nothing |
| `WriteStream.BlockWriteStream.Write` | internal/rpc/block_write_stream.go:104-116 | accepts everything or, when closed, nothing; then a flush outcome, with an error exactly if a connection write failed |
| `WriteStream.BlockWriteStream.Finish` | internal/rpc/block_write_stream.go:118-159 | finish outcome the first time, an error exactly if a connection write failed or an ack was bad; nil without effect afterwards |
| `WriteStream.BlockWriteStream.FinishedIsDurable` | internal/rpc/block_write_stream.go:118-159 | after a first finish with nil the acknowledged data is what was accepted |
| `BlockWriters.BlockWriter.OffsetIsLength` | internal/rpc/block_writer.go:84-85 | the write offset is the block's length before this writer plus every byte accepted, errors or not |
| `BlockWriters.BlockWriter.ConnectNext` | internal/rpc/block_writer.go:122-154 | a new stream starts at the write offset, or none exactly if the dial failed |
| `BlockWriters.BlockWriter.Write` | internal/rpc/block_writer.go:66-91 | takes what fits into the block, reports the end of the block whenever that was full before and, unless something fails, when not everything fits; fails exactly if a dial or a connection write does, and moves the offset by what it took |
| `BlockWriters.BlockWriter.Flush` | internal/rpc/block_writer.go:94-100 | nothing is accepted or lost; after nil nothing is buffered; before a finish it fails exactly if a connection write does |
| `BlockWriters.BlockWriter.Close` | internal/rpc/block_writer.go:105-120 | a first Close with nil means the block's data is acknowledged, and it fails exactly if a connection write failed or an ack was bad |
| `FileWriters.FileWriter.Create` | file_writer.go:56-81 | a new file has no block and no request to its name |
| `FileWriters.FileWriter.Append` | file_writer.go:87-135 | an appending writer starts at the end of the last block |
| `FileWriters.FileWriter.FinalizeBlock` | file_writer.go:283-305 | closes the block, sets its length in place and reports it; the block recorded holds what was acknowledged; fails exactly if the datanode or the namenode does |
| `FileWriters.FileWriter.StartNewBlock` | file_writer.go:247-281 | finalizes the open block, then asks for one whose predecessor is that block with its actual length; fails exactly if something outside does |
| `FileWriters.FileWriter.WriteSome` | file_writer.go:181-191 | one round of the loop makes progress: bytes go out, or a full block gives way to an empty one, unless no block has room |
| `FileWriters.FileWriter.EnsureBlock` | file_writer.go:172-177 | opens the first block when there is none |
| `FileWriters.FileWriter.WriteAll` | file_writer.go:179-192 | the loop ends whenever blocks have room, with every byte in a block and every block but the last full; if they have none, it accepts nothing, and only then can it have to be cut off |
| `FileWriters.FileWriter.Write` | file_writer.go:167-193 | after nil all bytes are accepted; otherwise the number it returns; it always returns if blocks have room, and unless a call failed before, it fails exactly if something outside does |
| `FileWriters.FileWriter.Flush` | file_writer.go:198-208 | accepts and loses nothing; after nil nothing is buffered; fails exactly if something outside does |
| `FileWriters.FileWriter.Close` | file_writer.go:213-245 | if nothing failed before, it fails exactly if something outside does, and after nil all is acknowledged and the namenode knows every block's actual length |
| `FileWriters.Session` | file_writer.go:167-245 | if all calls of any sequence of Write and Flush and the Close behind it return nil, everything written is accepted, and there is a block exactly if there was one to append to or a Write; if blocks have room, they all return nil exactly if nothing fails outside |
| `FileWriters.RollingIsExact` | file_writer.go:180-191 | the number of blocks is the total length over the block size, rounded up, where old contents of the first block count up to that size |
| `FileWriters.NoRoom` | file_writer.go:180-191 | with a block size of zero or less, a file closed without an error has had nothing written to it |
| `FileWriters.WriteNewFile` | file_writer.go:167-245 | for every sequence of calls that all return nil: acknowledged data block by block equals the bytes written, all blocks but the last are full, the last is not empty, their number is exact, and the requests name each block just closed with its actual length; and they do all return nil exactly if no dial, write, ack or request failed |
| `FileWriters.AppendToFile` | file_writer.go:87-135 | the same when appending to a block of any length: acknowledged data, exact number of blocks, all but the last full, a last one that is new not empty and within its size, and the requests |
| `ReadStream.BlockReadStream.StartPacket` | internal/rpc/block_read_stream.go:138-162 | a new packet begins without touching what is due |
| `ReadStream.BlockReadStream.ValidateChecksum` | internal/rpc/block_read_stream.go:125-136 | compares with the current slot; past the slots anything can happen |
| `ReadStream.BlockReadStream.TakeBuffered` | internal/rpc/block_read_stream.go:58-60 | hands out the beginning of the buffered chunk |
| `ReadStream.BlockReadStream.BufferChunk` | internal/rpc/block_read_stream.go:61-77 | one chunk moves into the buffer; honest data passes its check |
| `ReadStream.BlockReadStream.ReadSmall` | internal/rpc/block_read_stream.go:61-79 | a small read delivers the next bytes due: as many as were asked for or the chunk has, keeping the rest of the chunk |
| `ReadStream.BlockReadStream.PlanLarge` | internal/rpc/block_read_stream.go:85-93 | a large read takes whole chunks or the rest of the packet, never more than either buffer or packet |
| `ReadStream.BlockReadStream.ValidateChunks` | internal/rpc/block_read_stream.go:100-114 | the checking loop passes exactly if every chunk has its checksum, and otherwise stops at one that has not |
| `ReadStream.ChunkIsSafe` | internal/rpc/block_read_stream.go:101-108 | a chunk of honest data passes under every checksum function exactly if it is a whole one or the buffer ends with the packet's data |
| `ReadStream.LargeReadIsSafe` | internal/rpc/block_read_stream.go:100-114 | a large read passes under every checksum function exactly if the buffer is no longer than the rest of the packet or that rest is in whole chunks |
| `ReadStream.PartialChunkRejected` | internal/rpc/block_read_stream.go:102-111 | otherwise a checksum function under which right data is rejected |
| `ReadStream.BlockReadStream.AcceptLarge` | internal/rpc/block_read_stream.go:100-122 | passes exactly if all chunks do; only a read that reached the end of the packet, short of the buffer's end and with a partial chunk, can fail |
| `ReadStream.BlockReadStream.ReadLarge` | internal/rpc/block_read_stream.go:82-122 | a large read delivers the next bytes due, failed or not; it fails only if the connection does or a partial chunk is checked with stale bytes |
| `ReadStream.BlockReadStream.ReadFromPacket` | internal/rpc/block_read_stream.go:53-122 | once a packet has begun: from the buffer, through one chunk, or straight from the packet |
| `ReadStream.BlockReadStream.Read` | internal/rpc/block_read_stream.go:41-123 | every read delivers the next bytes due and keeps the rest due; how many it delivers and keeps buffered follows from the buffer, the size and what is left of the packet; EOF brings none and, unless the connection ended, leaves exactly the buffered bytes; a failure never fills the buffer; its cause is the connection or a partial chunk checked with stale bytes |
| `ReadSizes.ReadSequence` | internal/rpc/block_read_stream.go:41-123 | over any sequence of buffer sizes the output is a prefix of the packets' data; at an EOF before the connection ends only the buffered bytes are missing, and none if two reads in a row always ask for a chunk |
| `ReadSizes.EarlyEOF` | internal/rpc/block_read_stream.go:41-80 | conversely, for any sizes of which two in a row fall short of a chunk and those before are not zero, packets that are cut off by an EOF |
| `Failover.DatanodeFailover.Next` | internal/rpc/datanode_failover.go:36-63 | takes off the first datanode with the oldest failure, counting none as oldest |
| `Failover.DatanodeFailover.RecordFailure` | internal/rpc/datanode_failover.go:28-34 | notes the current datanode as failed now, and no other |
| `Failover.DrainIsStableSort` | internal/rpc/datanode_failover.go:44-63 | taking datanodes one by one sorts the list stably: never failed first, then oldest failure |
| `Failover.DrainIgnoresOthers` | internal/rpc/datanode_failover.go:28-63 | failures of datanodes not on the list do not change the order |
| `Failover.TryAll` | internal/rpc/datanode_failover.go:28-67 | for distinct addresses that order holds even if each one tried is recorded as failed |
| `BlockReaders.Discard` | internal/rpc/block_reader.go:171-184 | skips exactly the bytes before the wanted offset, or fails because the stream is in trouble |
| `BlockReaders.BlockReader.OpenStream` | internal/rpc/block_reader.go:133-186 | a stream that opens has the rest of the block from the offset due; none opens only if the datanode or its connection caused trouble |
| `BlockReaders.BlockReader.TakeNext` | internal/rpc/block_reader.go:131 | the first of the datanodes that failed longest ago is used up; those used and those left make up the list, and the order planned stays the same |
| `BlockReaders.BlockReader.ConnectNext` | internal/rpc/block_reader.go:130-194 | uses up one datanode, opens a stream at the offset or fails with cause, and lowers the number of attempts left |
| `BlockReaders.BlockReader.TryNext` | internal/rpc/block_reader.go:85-91 | the same, with a failure put on record |
| `BlockReaders.BlockReader.NoteFailure` | internal/rpc/block_reader.go:88-99 | the datanode just tried goes on record as failed |
| `BlockReaders.BlockReader.ReadFromStream` | internal/rpc/block_reader.go:93-107 | the bytes read are the next of the block; a stream is dropped only if its connection failed or a check rejected it, and EOF comes only from a connection that has ended or a last packet that has begun |
| `BlockReaders.BlockReader.Round` | internal/rpc/block_reader.go:82-108 | a round either returns or lowers 2 * datanodes left + (1 if a stream is open), and goes round again only after trouble |
| `BlockReaders.BlockReader.Retry` | internal/rpc/block_reader.go:81-115 | the retry loop ends, and fails only when every listed datanode has been tried |
| `BlockReaders.BlockReader.Read` | internal/rpc/block_reader.go:63-116 | returns the next bytes of the block and moves the offset along; fails only when every listed datanode was given up, each with cause and on record; EOF inside the block only from a stream at its end; for distinct datanodes, those tried follow the order that the record gave at the start |
| `BlockReaders.ReadBlock` | internal/rpc/block_reader.go:82-108 | over any pattern of failures the output is consecutive bytes from the starting offset, none skipped or repeated |
| `FileReaders.FileReader.Seek` | file_reader.go:131-159 | moves to the target if that is in the file, otherwise reports an error and stays |
| `FileReaders.FileReader.GetBlocks` | file_reader.go:376-391 | the block list is that of the namenode, unless that fails |
| `FileReaders.FindBlock` | file_reader.go:394-412 | inside the file the search finds a block that holds the offset |
| `FileReaders.FileReader.GetNewBlockReader` | file_reader.go:393-413 | the new block reader stands at the file offset |
| `FileReaders.FileReader.ReadBlock` | file_reader.go:198-199 | what the block reader returns are the file's bytes at the file offset; a failure means that no datanode of the block at the offset is left |
| `FileReaders.FileReader.Round` | file_reader.go:197-211 | bytes, an error that drops the block reader once no datanode of its block is left, or a fresh block reader at the same offset when the old one came to its end |
| `FileReaders.FileReader.ReadLoop` | file_reader.go:197-212 | returns the file's next bytes or an error with its cause, never an EOF; without trouble it goes round at most once more |
| `FileReaders.FileReader.EnsureReader` | file_reader.go:183-195 | fetches the block list and starts a block reader if need be |
| `FileReaders.FileReader.Read` | file_reader.go:162-212 | EOF exactly when the offset is at the end; otherwise the next bytes of the file, and the offset moves along; it fails only if the namenode did not tell the blocks or all datanodes of the block at the offset are on record as failed |
| `FileReaders.FileReader.ReadFull` | file_reader.go:229 | fills the buffer with consecutive bytes, or stops at the end of the file or an error with its cause |
| `FileReaders.FileReader.ReadAt` | file_reader.go:215-238 | bytes of the file from the given offset; nil exactly when the buffer is full; otherwise the end of the file or an error with its cause |
| `FileReaders.FileReader.Close` | file_reader.go:366-374 | closed, with the offset kept |
| `FileReaders.Session` | file_reader.go:131-238 | over every sequence of Seek, Read and ReadAt, each answer is one a plain byte array with an offset would give, or an error with its cause; as long as neither datanodes nor the namenode cause trouble, every answer is the array's own |
| `FileReaders.ReadAll` | file_reader.go:162-212 | reading to EOF returns the whole file, whatever streams ended early; without trouble it does end in EOF |
| `WriteThenRead.RoundTrip` | file_writer.go:167-245 | a file written and closed with nil reads back, by any sequence of requests, as what was written; if nothing fails outside, the write succeeds and every read does |
| `Namenode.IncrementWraps` | internal/rpc/namenode.go:198 | the int32 counter is the call count modulo 2^32 |
| `Namenode.NamenodeConnection.MarkFailure` | internal/rpc/namenode.go:170-182 | drops the connection; a first transient failure is noted, any other means backoff; a host not in backoff loses weight |
| `Namenode.NamenodeConnection.Connect` | internal/rpc/namenode.go:143-160 | a new connection has no request on it, and its handshake leaves a request id that fits |
| `Namenode.NamenodeConnection.ResolveConnection` | internal/rpc/namenode.go:128-168 | connects to the first host that can be reached, all before it being in backoff, or fails with every host in backoff |
| `Namenode.NamenodeConnection.WriteRequest` | internal/rpc/namenode.go:246-257 | adds the request with the current id, which is new on the connection |
| `Namenode.NamenodeConnection.ReadResponse` | internal/rpc/namenode.go:267-284 | a reply is accepted exactly if it is a success with the id waited for, and then answers the latest request; standby, hang-up and any other reply are told apart |
| `Namenode.NamenodeConnection.Attempt` | internal/rpc/namenode.go:206-226 | anything to retry costs the connection and, unless it was an EOF on read, weight; how each outcome marks the host |
| `Namenode.NamenodeConnection.Execute` | internal/rpc/namenode.go:194-232 | the retry loop ends, and nil means the response to this very call; it fails only if the reply was an error or not to be understood, or every host is in backoff, and without a fault it returns nil |
| `Namenode.Session` | internal/rpc/namenode.go:194-232 | over any number of calls below 2^32, also across Kerberos resets: every nil is paired right, without a fault all calls return nil, and the ids of two requests of a connection are in order exactly if the int32 does not wrap around between them |
| `Namenode.WhenIdsAreOrdered` | internal/rpc/namenode.go:198 | ids of two calls are in their order exactly if both come before the wrap-around or both after it |
| `Framing.VarintRoundTrip` | internal/rpc/rpc.go:78-83 | decoding a varint gives the number encoded and stops at its end |
| `Framing.VarintMeaning` | internal/rpc/rpc.go:78-83 | what any bytes decode to: the sum of their seven-bit digits up to the first byte below 128, or an overflow beyond 64 bits |
| `Framing.PrefixedMessageRoundTrip` | internal/rpc/rpc.go:101-133 | a message is recovered with the reader at the frame's end exactly if its length takes at most five varint bytes and the first read delivers min(5, frame length) bytes |
| `Framing.AcceptedMessage` | internal/rpc/rpc.go:101-133 | for any stream and first read, a message is accepted exactly if the stream, filled up with zeros to five bytes, begins with it behind its length |
| `Framing.CutMessageAccepted` | internal/rpc/rpc.go:104-125 | a single byte of a cut-off message that is accepted as a message |
| `Framing.MakeRPCPacket` | internal/rpc/rpc.go:40-56 | the prefixed messages in order, behind their total length cut to 32 bits |
| `Framing.ReadMessages` | internal/rpc/rpc.go:71-98 | the slot loop agrees with its recursive specification, whose every result the next three rows characterise |
| `Framing.AcceptedIsFramed` | internal/rpc/rpc.go:71-98 | a body is accepted as certain messages exactly if it is these, each behind its length, and the slots suffice |
| `Framing.WhenReaderCrashes` | internal/rpc/rpc.go:78-86 | it panics exactly if, with a slot left, a length exceeds the bytes behind it but not those with it |
| `Framing.WhenMalformed` | internal/rpc/rpc.go:74-98 | it reports a malformed message exactly if slots run out first or a length is missing or beyond the whole rest |
| `Framing.ReadRPCPacket` | internal/rpc/rpc.go:58-99 | reads exactly the announced length, or reports that it is missing |
| `Framing.SlotsRoundTrip` | internal/rpc/rpc.go:40-99 | reading a packet body gives back the messages, or reports more messages than slots |
| `Framing.SendAndReceive` | internal/rpc/rpc.go:40-99 | messages come back and the reader stops at the packet's end exactly if the total length is below 2^32 and the slots suffice |
| `Readdir.DirReader.GetListing` | file_reader.go:311-334 | a batch begins right behind the last name and is not empty before the end |
| `Readdir.DirReader.Fetch` | file_reader.go:280-295 | the entries gathered are consecutive, and enough unless the directory ends; an error leaves the reader where it was exactly if the first request failed |
| `Readdir.DirReader.Readdir` | file_reader.go:263-309 | a page is the next slice of at most n entries, or EOF at the end; with n <= 0 it is everything; a failed page skips the entries of the batches it had got, fewer than n |
| `Readdir.Session` | file_reader.go:263-334 | over any sequence of page sizes, successive pages are successive slices despite over-fetch, and a page fails only if a request does |
| `Readdir.PagesAndGaps` | file_reader.go:263-309 | what pages of positive size returned and what failed ones skipped make up the listing up to the reader's position |
| `Readdir.WhenNothingIsLost` | file_reader.go:281-290 | so they return the listing without a gap exactly if no page failed after its first request |
| `Readdir.SinglesLoseNothing` | file_reader.go:281-295 | pages of one entry return the listing without a gap whatever fails |
| `Readdir.FailedPageSkips` | file_reader.go:281-289 | for larger pages, a failing page of a fresh reader that has fetched a batch, and the next page, which begins behind entries never returned |
| `ChecksumPadding.PaddedLength` | file_reader.go:97-122 | the loop's padded length is 32 doubled as often as the totals demanded |
| `ChecksumPadding.PaddingIsLeast` | file_reader.go:92-122 | for block sums of at most 32 bytes that is the least 32*2^k that holds them |
| `ChecksumPadding.LeastPaddingIsUnique` | file_reader.go:92-96 | there is only one such number |
| `ChecksumPadding.PaddingIsExact` | file_reader.go:97-122 | for block sums of any length, the padding is right exactly if at no point the rest outgrows one doubling per remaining block |
| `ChecksumPadding.LongSumIsNotPadded` | file_reader.go:117-121 | a single block sum of more than 64 bytes is padded too short |
| `TailLines.SearchWindow` | cmd/hdfs/cat.go:130-142 | finds exactly the line breaks of a window, the one that ends the file excepted |
| `TailLines.TailLines` | cmd/hdfs/cat.go:117-156 | the offset is where the last lines begin according to the searched part of the file; a panic exactly if no line is asked for |
| `TailLines.TailIsLastLines` | cmd/hdfs/cat.go:117-156 | where the last n lines begin, by counting lines: behind a newline with n lines from there on, or the start of a file with no more than n |
| `TailLines.SearchIsExact` | cmd/hdfs/cat.go:119-156 | that is where they really begin exactly if enough breaks are in the searched part or too few in the whole file |
| `TailLines.WhenSearchIsExact` | cmd/hdfs/cat.go:119-156 | so a non-zero offset is always right, and sizes up to one window or in whole windows are searched in full |
| `TailLines.SizeDecides` | cmd/hdfs/cat.go:119-156 | the search is right for all files of a size and all line counts exactly for those sizes |
| `TailLines.SearchMisses` | cmd/hdfs/cat.go:119-156 | for every other size a file for which the search misses a line break |

## Left out

- Protobuf marshalling, CRC and MD5 arithmetic: messages are records or opaque byte strings, checksums arbitrary functions.
- The SASL exchange with Kerberos: only its effect on the request id is kept.
- Deadlines, sockets and wall-clock time: every network operation may fail, and the clock is a number that grows.
- FileReaders.FileReader.Read: `patience` bounds how often the loop may start over after a dropped connection, because the source retries without end; every run that does return is covered by some bound.
- Namenode.NamenodeConnection.Execute: `patience` likewise bounds how often a namenode hangs up after a request or a host gets out of its backoff; what a returned error was is not modelled.
- FileWriters.FileWriter.WriteAll: `patience` bounds how many blocks are started when the block size is zero or less, because the source goes on until one fails.
- The block construction stage, generation stamps, pipeline targets and block tokens in a write request: they do not affect the bytes.
- Framing.SendAndReceive: messages of 2^63 bytes or more are not considered.
- Recovery of a write pipeline: the source has none.
- `ChecksumReader`, lease renewal, `Walk`, `Stat`, `Mkdir`, `Rename`, `Remove`, permissions, configuration and the rest of the command line: thin calls or output formatting.
