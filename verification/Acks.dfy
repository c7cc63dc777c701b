/**
 Matching of acknowledgements to packets (`ackPackets` in
 internal/rpc/block_write_stream.go), as a specification shared by the concurrent
 protocol and the sequential write stream.
 */
module Acks {
  import opened Common
  import opened Packets

  const HEARTBEAT_SEQNO := -1

  datatype Status = Success | Failure(code: int)

  /** One attempt to read an ack from the datanode. */
  datatype Ack = Unreadable | Ack(seqno: int, replies: seq<Status>)

  datatype AckFailure = ReadFailed | BadStatus(pipelineIndex: nat, seqno: int, status: Status) | InvalidSeqno

  datatype Verdict = Skip | Match | Bad(failure: AckFailure)

  predicate AllSuccess(replies: seq<Status>) {
    forall i :: 0 <= i < |replies| ==> replies[i] == Success
  }

  /** Position of the first reply that is not a success, or the number of replies. */
  function FirstFailure(replies: seq<Status>): (i: nat)
    ensures i <= |replies|
    ensures AllSuccess(replies[..i])
    ensures i < |replies| ==> replies[i] != Success
  {
    if replies == [] || replies[0] != Success then 0
    else
      var rest := FirstFailure(replies[1..]);
      assert replies[..1 + rest] == [replies[0]] + replies[1..][..rest];
      1 + rest
  }

  /** What the ack loop concludes from one ack while it waits for packet p. */
  function Judge(p: Packet, a: Ack): (v: Verdict)
    ensures v == Match <==> a.Ack? && AllSuccess(a.replies) && a.seqno == p.seqno != HEARTBEAT_SEQNO
    ensures v == Skip <==> a.Ack? && AllSuccess(a.replies) && a.seqno == HEARTBEAT_SEQNO
  {
    assert a.Ack? ==> a.replies[..|a.replies|] == a.replies;
    match a
    case Unreadable => Bad(ReadFailed)
    case Ack(seqno, replies) =>
      var i := FirstFailure(replies);
      if i < |replies| then Bad(BadStatus(i, seqno, replies[i]))
      else if seqno == HEARTBEAT_SEQNO then Skip
      else if seqno != p.seqno then Bad(InvalidSeqno)
      else Match
  }

  /** The acks that are not answers to heartbeats. */
  function NonHeartbeats(acks: seq<Ack>): seq<Ack> {
    if acks == [] then []
    else
      var init := NonHeartbeats(acks[..|acks| - 1]);
      var a := acks[|acks| - 1];
      if a.Ack? && a.seqno == HEARTBEAT_SEQNO then init else init + [a]
  }

  /** Every ack was readable with only SUCCESS replies, and those that are not
      heartbeats answer the packets one by one, in order. */
  ghost predicate Matches(ps: seq<Packet>, acks: seq<Ack>) {
    && (forall i :: 0 <= i < |acks| ==> acks[i].Ack? && AllSuccess(acks[i].replies))
    && |NonHeartbeats(acks)| == |ps|
    && (forall i :: 0 <= i < |ps| ==> NonHeartbeats(acks)[i].Ack? && NonHeartbeats(acks)[i].seqno == ps[i].seqno)
  }

  /** How the ack loop can end once the channel is closed: every packet matched, or
      the first bad ack stopped it while it waited for packet number `acked`. */
  ghost predicate AckOutcome(ps: seq<Packet>, read: seq<Ack>, acked: nat, err: Option<AckFailure>) {
    match err
    case None => acked == |ps| && Matches(ps, read)
    case Some(f) =>
      && acked < |ps| && read != []
      && Matches(ps[..acked], read[..|read| - 1])
      && Judge(ps[acked], read[|read| - 1]) == Bad(f)
  }

  /** What the first finish of a stream may do. It flushes, sends the end-of-block
      packet if that went well, and reports nil only if the ack loop found no fault. */
  ghost predicate FinishOutcome(before: Core, after: Core, lastSent: bool,
                                read: seq<Ack>, acked: nat, ackError: Option<AckFailure>, err: Error)
  {
    && FlushReaches(before, after, true)
    && err in {Nil, Failed}
    && (lastSent ==> after.buf == [])
    && AckOutcome(if lastSent then after.sent + [LastPacket(after)] else after.sent, read, acked, ackError)
    && (ackError.Some? ==> err == Failed)
    && (err == Nil ==> lastSent)
  }

  lemma SkipKeepsMatches(ps: seq<Packet>, acks: seq<Ack>, p: Packet, a: Ack)
    requires Matches(ps, acks) && Judge(p, a) == Skip
    ensures Matches(ps, acks + [a])
  {
    assert (acks + [a])[..|acks|] == acks;
    assert a.replies[..|a.replies|] == a.replies;
  }

  lemma MatchExtendsMatches(ps: seq<Packet>, acks: seq<Ack>, p: Packet, a: Ack)
    requires Matches(ps, acks) && Judge(p, a) == Match
    ensures Matches(ps + [p], acks + [a])
  {
    assert (acks + [a])[..|acks|] == acks;
    assert a.replies[..|a.replies|] == a.replies;
  }

  /** The inner loop: reads acks from position k on until one fails or is not the answer
      to a heartbeat. That one is input[j]. */
  method ReadAckFor(ghost ps: seq<Packet>, ghost p: Packet, input: seq<Ack>, k: nat)
    returns (j: nat, seqno: int, err: Option<AckFailure>)
    requires k < |input| && input[|input| - 1] == Unreadable && Matches(ps, input[..k])
    ensures k <= j < |input| && Matches(ps, input[..j])
    ensures match err
            case Some(f) => Judge(p, input[j]) == Bad(f)
            case None =>
              && input[j].Ack? && input[j].seqno == seqno != HEARTBEAT_SEQNO && j + 1 < |input|
              && Judge(p, input[j]) == if seqno == p.seqno then Match else Bad(InvalidSeqno)
  {
    hide Matches;
    j, seqno := k, HEARTBEAT_SEQNO;
    while true
      invariant k <= j < |input| && Matches(ps, input[..j])
      decreases |input| - j
    {
      var a := input[j];
      if a == Unreadable {
        return j, HEARTBEAT_SEQNO, Some(ReadFailed);
      }
      var i := FirstFailure(a.replies);
      if i < |a.replies| {
        return j, a.seqno, Some(BadStatus(i, a.seqno, a.replies[i]));
      }
      seqno := a.seqno;
      if seqno != HEARTBEAT_SEQNO {
        return j, seqno, None;
      }
      SkipKeepsMatches(ps, input[..j], p, a);
      assert input[..j + 1] == input[..j] + [a];
      j := j + 1;
    }
  }

  /** The ack loop run over a complete channel. `acks` is what the datanode sends
      before the connection ends; reading past it fails. */
  method AckPackets(packets: seq<Packet>, acks: seq<Ack>)
    returns (acked: nat, read: seq<Ack>, err: Option<AckFailure>)
    ensures acked <= |packets|
    ensures AckOutcome(packets, read, acked, err)
    ensures read <= acks + [Unreadable]
  {
    var input := acks + [Unreadable];
    acked := 0;
    var k := 0;
    assert Matches(packets[..0], input[..0]);
    hide Matches, Judge;
    while acked < |packets|
      invariant acked <= |packets| && k < |input|
      invariant Matches(packets[..acked], input[..k])
    {
      var p := packets[acked];
      var j, seqno;
      j, seqno, err := ReadAckFor(packets[..acked], p, input, k);
      if err == None && seqno != p.seqno {
        err := Some(InvalidSeqno);
      }
      if err.Some? {
        read := input[..j + 1];
        assert read[..j] == input[..j];
        return;
      }
      MatchExtendsMatches(packets[..acked], input[..j], p, input[j]);
      assert input[..j + 1] == input[..j] + [input[j]];
      assert packets[..acked + 1] == packets[..acked] + [p];
      acked, k := acked + 1, j + 1;
    }
    assert packets[..acked] == packets;
    read, err := input[..k], None;
  }
}
