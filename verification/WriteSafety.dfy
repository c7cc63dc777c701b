/**
 What every reachable state of the write protocol keeps: the parts of the invariant, one
 lemma for each part and group of steps, and the induction over all runs.
 */
module WriteSafety {
  import opened Common
  import opened Packets
  import opened Acks
  import opened Wire
  import opened WriteProtocol

  ghost predicate QueueInv(enqueued: seq<Packet>, taken: seq<Packet>, queue: seq<Packet>) {
    enqueued == taken + queue && |queue| <= MAX_QUEUE
  }

  ghost predicate AckInv(k: Acker) {
    match k.pc
    case Receiving => k.error == None && k.acked == |k.taken| && Matches(k.taken, k.read)
    case Awaiting(p) =>
      && k.error == None && k.acked + 1 == |k.taken|
      && k.taken[k.acked] == p && Matches(k.taken[..k.acked], k.read)
    case Draining => k.error.Some? && AckOutcome(k.taken, k.read, k.acked, k.error)
    case AckerDone => AckOutcome(k.taken, k.read, k.acked, k.error)
  }

  /** finish is over: both close signals were given and the ack loop has returned. */
  predicate FinishOver(w: Writer, ch: Channel, done: bool) {
    w.closed && ch.queueClosed && ch.signalClosed && done
  }

  /** Who may be where, given what has been closed so far. */
  predicate CloseInv(w: Writer, ch: Channel, done: bool) {
    && (!w.closed ==> !ch.queueClosed && !ch.signalClosed && !w.lastSent)
    && (w.lastSent ==> w.core.buf == [])
    && (done ==> ch.queueClosed && ch.queue == [])
    && match w.pc
       case Idle => w.closed ==> FinishOver(w, ch, done)
       case FlushCheck(c) => MayFlush(w, ch, done, c)
       case FlushHead(c) => MayFlush(w, ch, done, c)
       case Sending(p, c) => MayFlush(w, ch, done, c) && (p.last ==> c == InFinish && w.core.buf == [])
       case WantLock(p, c) => MayWrite(w, ch, p, c)
       case Writing(p, k, c) => MayWrite(w, ch, p, c) && k < 3
       case CloseSignal(err) => w.closed && !ch.queueClosed && MayReturn(w, err)
       case CloseQueue(err) => w.closed && !ch.queueClosed && ch.signalClosed && MayReturn(w, err)
       case WaitAcks(err) => w.closed && ch.queueClosed && ch.signalClosed && MayReturn(w, err)
       case Panicked => FinishOver(w, ch, done)
  }

  predicate MayFlush(w: Writer, ch: Channel, done: bool, c: Caller) {
    match c
    case InWrite => !w.closed
    case InFlush => w.closed ==> FinishOver(w, ch, done)
    case InFinish => w.closed && !ch.queueClosed && !w.lastSent
  }

  predicate MayWrite(w: Writer, ch: Channel, p: Packet, c: Caller) {
    (c == InFinish <==> w.closed) && !ch.queueClosed && w.lastSent == p.last
  }

  predicate MayReturn(w: Writer, err: Error) {
    err in {Nil, Failed} && (err == Nil ==> w.lastSent)
  }

  predicate LockInv(writing: bool, n: Net) {
    && (n.lock == ByWriter <==> writing)
    && (n.lock == ByHeartbeat <==> n.heartbeat == HeartbeatWriting)
  }

  /** How far the running call has flushed. */
  ghost predicate FlushInv(w: Writer) {
    match w.pc
    case FlushCheck(_) => w.core == w.before
    case FlushHead(c) => FlushReaches(w.before, w.core, Force(c)) && (w.closed && c == InFlush ==> w.core == w.before)
    case Sending(p, c) =>
      && FlushReaches(w.before, w.core, Force(c))
      && if p.last then p == LastPacket(w.core) else CanEmit(w.core, Force(c)) && p == NextPacket(w.core)
    case WantLock(p, c) => FlushReaches(w.before, w.core, Force(c)) && (!p.last ==> w.core != w.before)
    case Writing(p, _, c) => FlushReaches(w.before, w.core, Force(c)) && (!p.last ==> w.core != w.before)
    case CloseSignal(_) => FlushReaches(w.before, w.core, true)
    case CloseQueue(_) => FlushReaches(w.before, w.core, true)
    case WaitAcks(_) => FlushReaches(w.before, w.core, true)
    case _ => true
  }

  /** The packet the writer holds for the connection, if any. */
  function InHand(w: Writer): seq<Packet> {
    if w.pc.WantLock? || w.pc.Writing? then [w.pc.packet] else []
  }

  function BeingWritten(w: Writer): seq<Token> {
    if w.pc.Writing? && w.pc.k < 3 then Partial(w.pc.packet, w.pc.k) else []
  }

  /** Without a failed connection write, the wire holds whole frames and then the part
      of one frame that the writer is writing; apart from heartbeats and the packet in
      hand, those frames are the enqueued packets. */
  ghost predicate WireInv(n: Net, enqueued: seq<Packet>, inHand: seq<Packet>, partial: seq<Token>) {
    !n.broken ==> n.wire == EncodeAll(n.frames) + partial && DataFrames(n.frames) + inHand == enqueued
  }

  /** What the call that returned last did, in terms of the sequential state only. */
  ghost predicate CallInv(w: Writer, k: Acker) {
    w.pc == Idle ==>
      match w.call
      case NoCall => true
      case Rejected(err) => err == ClosedPipe && w.closed
      case Wrote(before, err) => FlushOutcome(before, w.core, false, err)
      case Flushed(before, err) =>
        if w.closed then w.core == before && (err == Nil ==> before.buf == [])
        else FlushOutcome(before, w.core, true, err)
      case Finished(before, err) =>
        w.closed && FinishOutcome(before, w.core, w.lastSent, k.read, k.acked, k.error, err)
      case FinishedAgain => w.closed
  }

  ghost predicate Inv(s: State) {
    && CloseInv(s.w, s.ch, s.ack.pc == AckerDone)
    && FlushInv(s.w)
    && Packetised(s.w.base, s.w.accepted, s.w.core)
    && QueueInv(Enqueued(s.w), s.ack.taken, s.ch.queue)
    && AckInv(s.ack)
    && LockInv(s.w.pc.Writing?, s.net)
    && WireInv(s.net, Enqueued(s.w), InHand(s.w), BeingWritten(s.w))
    && CallInv(s.w, s.ack)
  }

  // --- each part of the invariant is kept by every step ---

  predicate IsCall(a: Action) {
    a.CallWrite? || a.CallFlush? || a.CallFinish?
  }

  predicate OnConnection(a: Action) {
    a.TakeLock? || a.WriteSegment? || a.FailSegment?
  }

  predicate ByOthers(a: Action) {
    || a.Receive? || a.ReadAck? || a.Drain? || a.EndOfPackets?
    || a.Tick? || a.HeartbeatTakesLock? || a.HeartbeatWrites? || a.HeartbeatFails? || a.HeartbeatStops?
  }

  lemma ConnectionKeepsClose(s: State, a: Action)
    requires Enabled(s, a) && CloseInv(s.w, s.ch, s.ack.pc == AckerDone) && OnConnection(a)
    ensures var t := Do(s, a); CloseInv(t.w, t.ch, t.ack.pc == AckerDone)
  {
  }

  lemma OthersKeepClose(s: State, a: Action)
    requires Enabled(s, a) && CloseInv(s.w, s.ch, s.ack.pc == AckerDone) && ByOthers(a)
    ensures var t := Do(s, a); CloseInv(t.w, t.ch, t.ack.pc == AckerDone)
  {
  }

  lemma StepKeepsClose(s: State, a: Action)
    requires Enabled(s, a) && CloseInv(s.w, s.ch, s.ack.pc == AckerDone)
    ensures var t := Do(s, a); CloseInv(t.w, t.ch, t.ack.pc == AckerDone)
  {
    if OnConnection(a) {
      ConnectionKeepsClose(s, a);
    } else if ByOthers(a) {
      OthersKeepClose(s, a);
    }
  }

  lemma StepKeepsLock(s: State, a: Action)
    requires Enabled(s, a) && LockInv(s.w.pc.Writing?, s.net)
    ensures var t := Do(s, a); LockInv(t.w.pc.Writing?, t.net)
  {
  }

  lemma SendKeepsFlush(w: Writer)
    requires FlushInv(w) && w.pc.Sending?
    ensures FlushInv(SendStep(w))
    ensures !w.pc.packet.last ==> w.core.buf != [] && SendStep(w).core == Emit(w.core)
  {
    if !w.pc.packet.last {
      FlushReachesEmit(w.before, w.core, Force(w.pc.caller));
      FlushReachesShrinks(w.before, w.core, Force(w.pc.caller));
    }
  }

  lemma WriterKeepsFlush(s: State, a: Action)
    requires Enabled(s, a) && CloseInv(s.w, s.ch, s.ack.pc == AckerDone) && FlushInv(s.w)
    requires !a.Send? && !ByOthers(a)
    ensures FlushInv(Do(s, a).w)
  {
  }

  lemma StepKeepsFlush(s: State, a: Action)
    requires Enabled(s, a) && CloseInv(s.w, s.ch, s.ack.pc == AckerDone) && FlushInv(s.w)
    ensures FlushInv(Do(s, a).w)
  {
    if a.Send? {
      SendKeepsFlush(s.w);
    } else if ByOthers(a) {
      assert Do(s, a).w == s.w;
    } else {
      WriterKeepsFlush(s, a);
    }
  }

  /** Apart from Write and Send, no step touches the buffer or the packet numbers. */
  lemma CoreIsPrivate(s: State, a: Action)
    requires Enabled(s, a) && !a.CallWrite? && !a.Send?
    ensures var w, v := s.w, Do(s, a).w; v.base == w.base && v.accepted == w.accepted && v.core == w.core
  {
  }

  lemma StepKeepsPacketised(s: State, a: Action)
    requires Enabled(s, a) && FlushInv(s.w) && Packetised(s.w.base, s.w.accepted, s.w.core)
    ensures var t := Do(s, a); Packetised(t.w.base, t.w.accepted, t.w.core)
  {
    if a.CallWrite? {
      AcceptKeepsPacketised(s.w.base, s.w.accepted, s.w.core, a.b);
    } else if a.Send? {
      SendKeepsFlush(s.w);
      if !s.w.pc.packet.last {
        EmitKeepsPacketised(s.w.base, s.w.accepted, s.w.core);
      }
    } else {
      CoreIsPrivate(s, a);
    }
  }

  /** Only Send adds to the enqueued packets. */
  lemma StepKeepsEnqueued(s: State, a: Action)
    requires Enabled(s, a) && CloseInv(s.w, s.ch, s.ack.pc == AckerDone) && FlushInv(s.w)
    ensures Enqueued(Do(s, a).w)
            == Enqueued(s.w) + if a.Send? && !s.ch.queueClosed then [s.w.pc.packet] else []
  {
    if a.Send? {
      SendKeepsFlush(s.w);
    }
  }

  lemma StepKeepsQueue(s: State, a: Action)
    requires Enabled(s, a) && QueueInv(Enqueued(s.w), s.ack.taken, s.ch.queue)
    requires Enqueued(Do(s, a).w)
             == Enqueued(s.w) + if a.Send? && !s.ch.queueClosed then [s.w.pc.packet] else []
    ensures var t := Do(s, a); QueueInv(Enqueued(t.w), t.ack.taken, t.ch.queue)
  {
  }

  lemma ReadAckKeeps(k: Acker, a: Ack)
    requires AckInv(k) && k.pc.Awaiting?
    ensures AckInv(ReadAckStep(k, a))
  {
    var p, ps := k.pc.packet, k.taken[..k.acked];
    assert (k.read + [a])[..|k.read|] == k.read;
    assert k.taken == ps + [p];
    match Judge(p, a) {
      case Skip => SkipKeepsMatches(ps, k.read, p, a);
      case Match => MatchExtendsMatches(ps, k.read, p, a);
      case Bad(_) =>
    }
  }

  lemma TakePacketKeeps(k: Acker, p: Packet)
    requires AckInv(k)
    ensures k.pc == Receiving ==> AckInv(TakePacket(k, p, Awaiting(p)))
    ensures k.pc == Draining ==> AckInv(TakePacket(k, p, Draining))
  {
    if k.acked <= |k.taken| {
      assert (k.taken + [p])[..k.acked] == k.taken[..k.acked];
      assert k.taken[..|k.taken|] == k.taken;
    }
  }

  lemma StepKeepsAcks(s: State, a: Action)
    requires Enabled(s, a) && AckInv(s.ack)
    ensures AckInv(Do(s, a).ack)
  {
    if a.ReadAck? {
      ReadAckKeeps(s.ack, a.ack);
    } else if a.Receive? || a.Drain? {
      TakePacketKeeps(s.ack, s.ch.queue[0]);
    }
  }

  lemma SegmentReachesWire(n: Net, enqueued: seq<Packet>, p: Packet, k: nat)
    requires k < 3 && p.seqno != HEARTBEAT_SEQNO && WireInv(n, enqueued, [p], Partial(p, k))
    ensures k < 2 ==> WireInv(SegmentOnNet(n, p, k), enqueued, [p], Partial(p, k + 1))
    ensures k == 2 ==> WireInv(SegmentOnNet(n, p, k), enqueued, [], [])
  {
    if !n.broken {
      assert SegmentOnNet(n, p, k).wire == EncodeAll(n.frames) + Partial(p, k + 1);
      PartialComplete(p);
      EncodeAllSnoc(n.frames, p);
      DataFramesSnoc(n.frames, p);
    }
  }

  lemma HeartbeatReachesWire(n: Net, enqueued: seq<Packet>, inHand: seq<Packet>)
    requires WireInv(n, enqueued, inHand, [])
    ensures WireInv(HeartbeatOnNet(n), enqueued, inHand, [])
  {
    EncodeAllSnoc(n.frames, HeartbeatPacket());
    DataFramesSnoc(n.frames, HeartbeatPacket());
  }

  /** The packet in hand was numbered by the writer, so it is not a heartbeat. */
  lemma InHandIsNumbered(w: Writer, n: Net)
    requires Packetised(w.base, w.accepted, w.core)
    requires WireInv(n, Enqueued(w), InHand(w), BeingWritten(w)) && !n.broken
    ensures InHand(w) != [] ==> InHand(w)[0].seqno > 0
  {
    if InHand(w) != [] {
      assert Enqueued(w)[|Enqueued(w)| - 1] == InHand(w)[0];
    }
  }

  /** The steps that neither write to the connection nor change the packet in hand. */
  predicate OffConnection(a: Action) {
    !a.Send? && !OnConnection(a) && !a.HeartbeatWrites? && !a.HeartbeatFails?
  }

  lemma OffConnectionLeavesWire(s: State, a: Action)
    requires Enabled(s, a) && OffConnection(a)
    ensures var t := Do(s, a);
            && InHand(t.w) == InHand(s.w) && BeingWritten(t.w) == BeingWritten(s.w)
            && t.net.wire == s.net.wire && t.net.frames == s.net.frames && t.net.broken == s.net.broken
  {
  }

  lemma SendKeepsWire(s: State)
    requires Enabled(s, Send) && WireInv(s.net, Enqueued(s.w), InHand(s.w), BeingWritten(s.w))
    requires Enqueued(Do(s, Send).w) == Enqueued(s.w) + if s.ch.queueClosed then [] else [s.w.pc.packet]
    ensures var t := Do(s, Send); WireInv(t.net, Enqueued(t.w), InHand(t.w), BeingWritten(t.w))
  {
  }

  lemma ConnectionKeepsWire(s: State, a: Action)
    requires Enabled(s, a) && OnConnection(a) && Packetised(s.w.base, s.w.accepted, s.w.core)
    requires WireInv(s.net, Enqueued(s.w), InHand(s.w), BeingWritten(s.w))
    ensures var t := Do(s, a); WireInv(t.net, Enqueued(s.w), InHand(t.w), BeingWritten(t.w))
  {
    if a.WriteSegment? && !s.net.broken {
      InHandIsNumbered(s.w, s.net);
      SegmentReachesWire(s.net, Enqueued(s.w), s.w.pc.packet, s.w.pc.k);
    }
  }

  lemma StepKeepsWire(s: State, a: Action)
    requires Enabled(s, a) && LockInv(s.w.pc.Writing?, s.net)
    requires Packetised(s.w.base, s.w.accepted, s.w.core)
    requires WireInv(s.net, Enqueued(s.w), InHand(s.w), BeingWritten(s.w))
    requires Enqueued(Do(s, a).w)
             == Enqueued(s.w) + if a.Send? && !s.ch.queueClosed then [s.w.pc.packet] else []
    ensures var t := Do(s, a); WireInv(t.net, Enqueued(t.w), InHand(t.w), BeingWritten(t.w))
  {
    if a.Send? {
      SendKeepsWire(s);
    } else if OnConnection(a) {
      ConnectionKeepsWire(s, a);
    } else if a.HeartbeatWrites? {
      HeartbeatReachesWire(s.net, Enqueued(s.w), InHand(s.w));
    } else if OffConnection(a) {
      OffConnectionLeavesWire(s, a);
    }
  }

  lemma CollectAcksKeepsCall(w: Writer, ch: Channel, k: Acker)
    requires CloseInv(w, ch, true) && FlushInv(w) && w.pc.WaitAcks?
    requires k.pc == AckerDone && AckInv(k) && QueueInv(Enqueued(w), k.taken, ch.queue)
    ensures CallInv(CollectAcksStep(w, k.error.Some?), k)
  {
    assert k.taken + [] == k.taken;
  }

  /** Once finish has returned, the ack loop takes no more steps. */
  lemma OthersKeepCall(s: State, a: Action)
    requires Enabled(s, a) && CloseInv(s.w, s.ch, s.ack.pc == AckerDone) && CallInv(s.w, s.ack) && ByOthers(a)
    ensures var t := Do(s, a); CallInv(t.w, t.ack)
  {
  }

  lemma FlushKeepsCall(s: State, a: Action)
    requires Enabled(s, a) && CloseInv(s.w, s.ch, s.ack.pc == AckerDone) && FlushInv(s.w)
    requires !ByOthers(a) && !a.CollectAcks?
    ensures var t := Do(s, a); CallInv(t.w, t.ack)
  {
  }

  lemma StepKeepsCall(s: State, a: Action)
    requires Enabled(s, a) && CloseInv(s.w, s.ch, s.ack.pc == AckerDone) && FlushInv(s.w)
    requires AckInv(s.ack) && QueueInv(Enqueued(s.w), s.ack.taken, s.ch.queue)
    requires CallInv(s.w, s.ack)
    ensures var t := Do(s, a); CallInv(t.w, t.ack)
  {
    if a.CollectAcks? {
      CollectAcksKeepsCall(s.w, s.ch, s.ack);
    } else if ByOthers(a) {
      OthersKeepCall(s, a);
    } else {
      FlushKeepsCall(s, a);
    }
  }

  lemma StepKeepsInv(s: State, a: Action)
    requires Inv(s) && Enabled(s, a)
    ensures Inv(Do(s, a))
  {
    StepKeepsClose(s, a);
    StepKeepsFlush(s, a);
    StepKeepsPacketised(s, a);
    StepKeepsEnqueued(s, a);
    StepKeepsQueue(s, a);
    StepKeepsAcks(s, a);
    StepKeepsLock(s, a);
    StepKeepsWire(s, a);
    StepKeepsCall(s, a);
  }

  /** Every reachable state satisfies the invariant. */
  lemma {:induction false} RunKeepsInv(base: nat, run: seq<Action>)
    requires Exec(base, run).Some?
    ensures Inv(Exec(base, run).value)
    decreases |run|
  {
    if run != [] {
      RunKeepsInv(base, run[..|run| - 1]);
      StepKeepsInv(Exec(base, run[..|run| - 1]).value, run[|run| - 1]);
    }
  }
}
