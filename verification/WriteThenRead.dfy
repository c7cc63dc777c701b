/**
 The two halves together: a file that was written and closed without an error reads back
 as what was written. Datanodes are taken to keep what they have acknowledged.
 */
module WriteThenRead {
  import opened Common
  import opened Failover
  import Writing = FileWriters
  import Reading = FileReaders

  /** The located blocks of a file with the given finalized blocks. */
  function Layout(blocks: seq<Writing.ClosedBlock>, locations: seq<Address>): seq<Reading.LocatedBlock> {
    if blocks == [] then []
    else
      var init, last := blocks[..|blocks| - 1], blocks[|blocks| - 1];
      Layout(init, locations) + [Reading.LocatedBlock(|Writing.AckedBytes(init)|, last.data, locations)]
  }

  lemma {:induction false} TilesSnoc(blocks: seq<Reading.LocatedBlock>, from: nat, file: Bytes, b: Reading.LocatedBlock)
    requires Reading.Tiles(blocks, from, file) && b.offset == |file|
    ensures Reading.Tiles(blocks + [b], from, file + b.contents)
    decreases |blocks|
  {
    var longer, all := file + b.contents, blocks + [b];
    if blocks == [] {
      assert longer[from..from + |b.contents|] == b.contents;
      assert all[1..] == [];
    } else {
      var end := from + |blocks[0].contents|;
      TilesSnoc(blocks[1..], end, file, b);
      assert all[1..] == blocks[1..] + [b];
      assert longer[from..end] == file[from..end];
    }
  }

  lemma {:induction false} LayoutTiles(blocks: seq<Writing.ClosedBlock>, locations: seq<Address>)
    ensures Reading.Tiles(Layout(blocks, locations), 0, Writing.AckedBytes(blocks))
    decreases |blocks|
  {
    if blocks != [] {
      var init, last := blocks[..|blocks| - 1], blocks[|blocks| - 1];
      LayoutTiles(init, locations);
      TilesSnoc(Layout(init, locations), 0, Writing.AckedBytes(init),
                Reading.LocatedBlock(|Writing.AckedBytes(init)|, last.data, locations));
    }
  }

  lemma {:induction false} LayoutIsLocated(blocks: seq<Writing.ClosedBlock>, locations: seq<Address>)
    requires locations != []
    ensures Reading.Located(Layout(blocks, locations))
    decreases |blocks|
  {
    if blocks != [] {
      LayoutIsLocated(blocks[..|blocks| - 1], locations);
    }
  }

  /** Write a file, then read it in any way: every answer is that of the byte array written,
      whatever fails on the way, provided the write was reported to have succeeded. If nothing
      fails, the write does succeed, and every answer is the array's own. */
  method RoundTrip(blockSize: int, ops: seq<Writing.Op>, locations: seq<Address>,
                   requests: seq<Reading.Request>, patience: nat)
    returns (ok: bool, layout: seq<Reading.LocatedBlock>, answers: seq<Reading.Answer>, faults: nat)
    ensures ok ==> Reading.Tiles(layout, 0, Writing.WrittenBytes(ops)) && |answers| == |requests|
    ensures ok ==> forall i :: 0 <= i < |answers| ==>
                     Reading.Answers(Writing.WrittenBytes(ops), layout, patience, Reading.OffsetBefore(answers, i),
                                     requests[i], answers[i])
    ensures 0 < blockSize && locations != [] && patience >= 1 && faults == 0 ==>
              ok && forall i :: 0 <= i < |answers| ==> Reading.ArrayAnswer(Writing.WrittenBytes(ops), requests[i], answers[i])
  {
    hide Reading.Tiles, Reading.Answers, Reading.Located, Reading.ArrayAnswer, Writing.AckedBytes, Writing.WrittenBytes;
    var blocks, log;
    ok, blocks, log, faults := Writing.WriteNewFile(blockSize, ops, patience);
    layout, answers := [], [];
    if ok {
      LayoutTiles(blocks, locations);
      var troubles;
      var file := Writing.WrittenBytes(ops);
      layout := Layout(blocks, locations);
      answers, troubles := Reading.Session(file, layout, requests, patience);
      faults := faults + troubles;
      if locations != [] {
        LayoutIsLocated(blocks, locations);
      }
    }
  }
}
