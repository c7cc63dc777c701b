/**
 The theorems about whole runs of the write protocol, for every interleaving of the
 writer, the ack loop and the heartbeat sender and every behaviour of the datanode.
 */
module WriteTheorems {
  import opened Common
  import opened Packets
  import opened Acks
  import opened Wire
  import opened WriteProtocol
  import opened WriteSafety

  /** Ack soundness. The first finish returns nil only if every packet that ever went
      into the channel, the end-of-block packet included, was answered in order by an
      ack with its own seqno and only SUCCESS replies. */
  lemma AckSoundness(base: nat, run: seq<Action>)
    requires Exec(base, run).Some?
    ensures var s := Exec(base, run).value;
            s.w.pc == Idle && s.w.call.Finished? && s.w.call.err == Nil ==>
              && Matches(Enqueued(s.w), s.ack.read)
              && Enqueued(s.w) == s.w.core.sent + [LastPacket(s.w.core)]
              && s.ack.acked == |Enqueued(s.w)| && s.ack.error == None
  {
    RunKeepsInv(base, run);
  }

  /** Durability of one block. If the first finish returns nil, the data of the
      acknowledged packets is exactly what was handed to Write, and the packets are
      numbered, contiguous from the starting offset and chunk aligned. */
  lemma StreamDurability(base: nat, run: seq<Action>)
    requires Exec(base, run).Some?
    ensures var s := Exec(base, run).value;
            s.w.pc == Idle && s.w.call.Finished? && s.w.call.err == Nil ==>
              && s.ack.acked == |Enqueued(s.w)|
              && DataOf(Enqueued(s.w)[..s.ack.acked]) == s.w.accepted
              && Numbered(base, s.w.core.sent)
              && LastPacket(s.w.core).seqno == |s.w.core.sent| + 1
              && LastPacket(s.w.core).offset == base + |s.w.accepted|
  {
    RunKeepsInv(base, run);
    BaseIsFixed(base, run);
    var s := Exec(base, run).value;
    if s.w.pc == Idle && s.w.call.Finished? && s.w.call.err == Nil {
      DataOfSnoc(s.w.core.sent, LastPacket(s.w.core));
      assert Enqueued(s.w)[..s.ack.acked] == Enqueued(s.w);
    }
  }

  /** If no connection write failed either, then what the datanode has read off the wire,
      heartbeats aside, is exactly what it acknowledged. */
  lemma AcknowledgedWasSent(base: nat, run: seq<Action>)
    requires Exec(base, run).Some? && !Exec(base, run).value.net.broken
    ensures var s := Exec(base, run).value;
            s.w.pc == Idle && s.w.call.Finished? && s.w.call.err == Nil ==>
              && DataFrames(Parse(s.net.wire).frames) == Enqueued(s.w)
              && DataOf(DataFrames(Parse(s.net.wire).frames)) == s.w.accepted
  {
    WireSafety(base, run);
    StreamDurability(base, run);
    var s := Exec(base, run).value;
    if s.ack.acked == |Enqueued(s.w)| {
      assert Enqueued(s.w)[..s.ack.acked] == Enqueued(s.w);
    }
  }

  lemma {:induction false} BaseIsFixed(base: nat, run: seq<Action>)
    requires Exec(base, run).Some?
    ensures Exec(base, run).value.w.base == base
    decreases |run|
  {
    if run != [] {
      var init := run[..|run| - 1];
      BaseIsFixed(base, init);
      StepFixesBase(Exec(base, init).value, run[|run| - 1]);
    }
  }

  lemma StepFixesBase(s: State, a: Action)
    requires Enabled(s, a)
    ensures Do(s, a).w.base == s.w.base
  {
    if !a.CallWrite? && !a.Send? {
      CoreIsPrivate(s, a);
    }
  }

  /** Packetisation conserves data in every reachable state, after errors too: the
      packets sent so far followed by the buffer are all the bytes handed to Write. */
  lemma NothingIsLost(base: nat, run: seq<Action>)
    requires Exec(base, run).Some?
    ensures var w := Exec(base, run).value.w;
            && DataOf(w.core.sent) + w.core.buf == w.accepted
            && w.core.offset == base + |DataOf(w.core.sent)|
            && Numbered(base, w.core.sent)
  {
    RunKeepsInv(base, run);
    BaseIsFixed(base, run);
  }

  /** No ack error is visible to a stream that is still open. */
  lemma AckErrorsStayHidden(base: nat, run: seq<Action>)
    requires Exec(base, run).Some?
    ensures var s := Exec(base, run).value; !s.w.closed ==> !AckErrorVisible(s.ack)
  {
    RunKeepsInv(base, run);
  }

  /** What the datanode has read, set against what the writer has sent: whole frames,
      never a mixture, and apart from heartbeats they are the enqueued packets in order,
      except that the one in hand may still be missing. */
  ghost predicate FramesAreWhole(read: Parsed, sent: seq<Packet>, inHand: seq<Packet>, partial: seq<Token>) {
    var seen := DataFrames(read.frames);
    && read.rest <= partial
    && if inHand == [] then seen == sent && read.rest == []
       else sent != [] && (seen == sent || seen == sent[..|sent| - 1])
  }

  /** The frames on the wire, counting the one in hand if all of it is there. */
  lemma ParseWire(wire: seq<Token>, frames: seq<Packet>, p: Packet, partial: seq<Token>) returns (read: Parsed)
    requires wire == EncodeAll(frames) + partial && partial <= Encode(p)
    ensures read == Parse(wire)
    ensures read == if partial == Encode(p) then Parsed(frames + [p], []) else Parsed(frames, partial)
  {
    if partial == Encode(p) {
      EncodeAllSnoc(frames, p);
      assert wire == EncodeAll(frames + [p]) + [];
      ParseRoundTrip(frames + [p], [], p);
      read := Parsed(frames + [p], []);
    } else {
      ParseRoundTrip(frames, partial, p);
      read := Parsed(frames, partial);
    }
  }

  lemma FramesMatchPackets(read: Parsed, frames: seq<Packet>, sent: seq<Packet>, inHand: seq<Packet>, p: Packet,
                           partial: seq<Token>)
    requires DataFrames(frames) + inHand == sent
    requires if inHand == [] then partial == [] else inHand == [p] && p.seqno != HEARTBEAT_SEQNO
    requires read == Parsed(frames, partial) || (inHand != [] && read == Parsed(frames + [p], []))
    ensures FramesAreWhole(read, sent, inHand, partial)
  {
    DataFramesSnoc(frames, p);
    if inHand != [] {
      assert sent[..|sent| - 1] == DataFrames(frames);
    }
  }

  lemma PartialOfInHand(w: Writer, n: Net)
    requires Packetised(w.base, w.accepted, w.core) && !n.broken
    requires WireInv(n, Enqueued(w), InHand(w), BeingWritten(w))
    ensures InHand(w) == [] ==> BeingWritten(w) == []
    ensures InHand(w) != [] ==> InHand(w)[0].seqno != HEARTBEAT_SEQNO && BeingWritten(w) <= Encode(InHand(w)[0])
  {
    InHandIsNumbered(w, n);
    if w.pc.Writing? && w.pc.k < 3 {
      PartialIsPrefix(w.pc.packet, w.pc.k);
    }
  }

  /** Wire safety, in every run without a failed connection write. */
  lemma WireSafety(base: nat, run: seq<Action>)
    requires Exec(base, run).Some? && !Exec(base, run).value.net.broken
    ensures var s := Exec(base, run).value;
            FramesAreWhole(Parse(s.net.wire), Enqueued(s.w), InHand(s.w), BeingWritten(s.w))
  {
    RunKeepsInv(base, run);
    var s := Exec(base, run).value;
    PartialOfInHand(s.w, s.net);
    var p := if InHand(s.w) == [] then HeartbeatPacket() else InHand(s.w)[0];
    var read := ParseWire(s.net.wire, s.net.frames, p, BeingWritten(s.w));
    FramesMatchPackets(read, s.net.frames, Enqueued(s.w), InHand(s.w), p, BeingWritten(s.w));
  }

  lemma PartialIsPrefix(p: Packet, k: nat)
    requires k < 3
    ensures Partial(p, k) <= Encode(p)
  {
    assert Partial(p, 1) == [] + Segment(p, 0);
    assert Partial(p, 2) == Partial(p, 1) + Segment(p, 1);
  }

  /** Window safety. While there is no ack error, at most MAX_QUEUE + 1 packets are
      written to the datanode and not yet acknowledged. */
  lemma WindowSafety(base: nat, run: seq<Action>)
    requires Exec(base, run).Some? && !Exec(base, run).value.net.broken
    requires Exec(base, run).value.ack.error == None
    ensures var s := Exec(base, run).value;
            |DataFrames(Parse(s.net.wire).frames)| <= s.ack.acked + MAX_QUEUE + 1
  {
    RunKeepsInv(base, run);
    WireSafety(base, run);
  }

  /** The steps a goroutine can take without anything from the caller, the datanode or the
      clock. A heartbeat that holds the lock may still finish, but none begins. */
  predicate Internal(a: Action) {
    && !IsCall(a) && !a.ReadAck? && !a.FailSegment? && !a.HeartbeatFails?
    && !a.Tick? && !a.HeartbeatTakesLock? && !a.HeartbeatStops?
  }

  /** The ack loop waits for the answer to a packet that the datanode has in full. */
  predicate WaitsForDatanode(s: State) {
    s.ack.pc.Awaiting? && s.ack.pc.packet in DataFrames(Parse(s.net.wire).frames)
  }

  /** No deadlock. As long as a call is running and no connection write has failed, some
      goroutine can move, or the datanode owes an ack for a packet it has in full. */
  lemma NoDeadlock(base: nat, run: seq<Action>)
    requires Exec(base, run).Some? && !Exec(base, run).value.net.broken
    requires Exec(base, run).value.w.pc !in {Idle, Panicked}
    ensures var s := Exec(base, run).value;
            (exists a :: Internal(a) && Enabled(s, a)) || WaitsForDatanode(s)
  {
    var s := Exec(base, run).value;
    RunKeepsControl(base, run);
    if s.w.pc.Sending? || s.w.pc.WaitAcks? {
      BlockedWriter(base, run);
      assert Internal(Send) && Internal(CollectAcks) && Internal(Receive) && Internal(Drain) && Internal(EndOfPackets);
    } else {
      var a := WriterMove(s);
      assert Internal(a) && Enabled(s, a);
    }
  }

  /** The step that a writer which is not waiting for the ack loop can cause. */
  function WriterMove(s: State): (a: Action)
    requires LockInv(s.w.pc.Writing?, s.net) && (s.w.pc.Writing? ==> s.w.pc.k < 3)
    requires s.w.pc !in {Idle, Panicked} && !s.w.pc.Sending? && !s.w.pc.WaitAcks?
    ensures Internal(a) && Enabled(s, a)
  {
    match s.w.pc
    case FlushCheck(_) => CheckAcks
    case FlushHead(_) => LoopFlush
    case WantLock(_, _) => if s.net.lock == Free then TakeLock else HeartbeatWrites
    case Writing(_, _, _) => WriteSegment
    case CloseSignal(_) => DoCloseSignal
    case CloseQueue(_) => DoCloseQueue
  }

  /** The part of the invariant that decides who can move. */
  lemma RunKeepsControl(base: nat, run: seq<Action>)
    requires Exec(base, run).Some?
    ensures var s := Exec(base, run).value;
            && LockInv(s.w.pc.Writing?, s.net) && (s.w.pc.Writing? ==> s.w.pc.k < 3)
            && |s.ch.queue| <= MAX_QUEUE && (s.w.pc.WaitAcks? ==> s.ch.queueClosed)
            && (s.ack.pc == AckerDone ==> s.ch.queueClosed)
            && (s.ack.pc.Awaiting? ==> s.ack.pc.packet in Enqueued(s.w))
  {
    RunKeepsInv(base, run);
    var s := Exec(base, run).value;
    AwaitedIsEnqueued(Enqueued(s.w), s.ack, s.ch.queue);
  }

  lemma AwaitedIsEnqueued(enqueued: seq<Packet>, k: Acker, queue: seq<Packet>)
    requires QueueInv(enqueued, k.taken, queue) && AckInv(k)
    ensures k.pc.Awaiting? ==> k.pc.packet in enqueued
  {
    if k.pc.Awaiting? {
      assert enqueued[k.acked] == k.pc.packet;
    }
  }

  /** A writer that waits for the ack loop, on the full channel or at the end of finish:
      either it or the ack loop can move, or the ack loop waits for the datanode. */
  lemma BlockedWriter(base: nat, run: seq<Action>)
    requires Exec(base, run).Some? && !Exec(base, run).value.net.broken
    requires Exec(base, run).value.w.pc.Sending? || Exec(base, run).value.w.pc.WaitAcks?
    ensures var s := Exec(base, run).value;
            || Enabled(s, Send) || Enabled(s, CollectAcks)
            || Enabled(s, Receive) || Enabled(s, Drain) || Enabled(s, EndOfPackets)
            || WaitsForDatanode(s)
  {
    RunKeepsControl(base, run);
    WireSafety(base, run);
  }

  /** In particular, a writer blocked on a full channel can rely on the ack loop. */
  lemma FullChannelDrains(base: nat, run: seq<Action>)
    requires Exec(base, run).Some? && !Exec(base, run).value.net.broken
    requires var s := Exec(base, run).value; s.w.pc.Sending? && !Enabled(s, Send)
    ensures var s := Exec(base, run).value;
            |s.ch.queue| == MAX_QUEUE && (Enabled(s, Receive) || Enabled(s, Drain) || WaitsForDatanode(s))
  {
    RunKeepsControl(base, run);
    BlockedWriter(base, run);
  }

  lemma Extend(base: nat, run: seq<Action>, s: State, a: Action) returns (longer: seq<Action>, t: State)
    requires Exec(base, run) == Some(s) && Enabled(s, a)
    ensures longer == run + [a] && t == Do(s, a) && Exec(base, longer) == Some(t)
  {
    longer, t := run + [a], Do(s, a);
    assert longer[..|run|] == run;
  }

  /** A run that has sent the end-of-block packet of an empty block. */
  lemma SendLast(base: nat) returns (run: seq<Action>, s: State)
    ensures Exec(base, run) == Some(s)
    ensures s.w.core == Fresh(base) && s.w.closed && s.w.lastSent
    ensures s.w.pc == WantLock(LastPacket(Fresh(base)), InFinish)
    ensures s.ch == Channel([LastPacket(Fresh(base))], false, false)
    ensures s.ack == Init(base).ack && s.net.lock == Free
  {
    run, s := Extend(base, [], Init(base), CallFinish);
    run, s := Extend(base, run, s, CheckAcks);
    run, s := Extend(base, run, s, LoopFlush);
    run, s := Extend(base, run, s, Send);
  }

  /** The same run, with the packet on the wire and the datanode gone. */
  lemma LoseLastAck(base: nat) returns (run: seq<Action>, s: State)
    ensures Exec(base, run) == Some(s)
    ensures s.w.core == Fresh(base) && s.w.closed && s.w.lastSent && s.w.pc == CloseSignal(Nil)
    ensures s.ch == Channel([], false, false)
    ensures s.ack.pc == Draining && s.ack.acked == 0 && s.ack.error == Some(ReadFailed)
  {
    run, s := SendLast(base);
    run, s := Extend(base, run, s, TakeLock);
    run, s := Extend(base, run, s, WriteSegment);
    run, s := Extend(base, run, s, WriteSegment);
    run, s := Extend(base, run, s, WriteSegment);
    run, s := Extend(base, run, s, Receive);
    run, s := Extend(base, run, s, ReadAck(Unreadable));
  }

  /** A finish that is not the first returns nil whatever happened before: here the
      datanode hangs up, the first finish fails, and the second one hides it. */
  lemma SecondFinishHidesFailure(base: nat) returns (run: seq<Action>, s: State)
    ensures Exec(base, run) == Some(s)
    ensures s.w.call == FinishedAgain && s.ack.acked < |Enqueued(s.w)| && s.ack.error == Some(ReadFailed)
  {
    run, s := LoseLastAck(base);
    run, s := Extend(base, run, s, DoCloseSignal);
    run, s := Extend(base, run, s, DoCloseQueue);
    run, s := Extend(base, run, s, EndOfPackets);
    run, s := Extend(base, run, s, CollectAcks);
    assert s.w.call.Finished? && s.w.call.err == Failed;
    run, s := Extend(base, run, s, CallFinish);
  }
}
