/**
 The three goroutines of a write stream (internal/rpc/block_write_stream.go) as a
 step relation: the writer that runs Write, flush and finish, the ack loop, and the
 heartbeat sender. They share a bounded channel, a lock around the connection, and
 two close signals. Every connection write and every ack read is a choice of the
 environment, so a run is a sequence of actions.
 */
module WriteProtocol {
  import opened Common
  import opened Packets
  import opened Acks
  import opened Wire

  const MAX_QUEUE := 5

  datatype Caller = InWrite | InFlush | InFinish

  datatype WriterPc =
    | Idle                                              // between calls
    | FlushCheck(caller: Caller)                        // flush: about to look for an ack error
    | FlushHead(caller: Caller)                         // flush: loop condition
    | Sending(packet: Packet, caller: Caller)           // blocked on the channel
    | WantLock(packet: Packet, caller: Caller)          // writePacket: waiting for the lock
    | Writing(packet: Packet, k: nat, caller: Caller)   // holding the lock, k segments written
    | CloseSignal(err: Error)                           // finish, deferred: close(closeCh)
    | CloseQueue(err: Error)                            // finish, deferred: close(packets)
    | WaitAcks(err: Error)                              // finish, deferred: <-acksDone
    | Panicked                                          // sent on a closed channel

  datatype AckerPc = Receiving | Awaiting(packet: Packet) | Draining | AckerDone

  datatype HeartbeatPc = Ticking | HeartbeatWantsLock | HeartbeatWriting | HeartbeatDone

  datatype Holder = Free | ByWriter | ByHeartbeat

  /** The call that returned last, with the sequential state it flushed from. */
  datatype Call =
    | NoCall
    | Rejected(err: Error)                  // returned before touching the buffer
    | Wrote(before: Core, err: Error)
    | Flushed(before: Core, err: Error)
    | Finished(before: Core, err: Error)    // the first finish
    | FinishedAgain

  /** The writer: the goroutine that runs Write, flush and finish. */
  datatype Writer = Writer(
    base: nat,          // block offset at which the stream started
    accepted: Bytes,    // all bytes Write put into the buffer
    core: Core,
    before: Core,       // sequential state when the running call started to flush
    closed: bool,
    lastSent: bool,     // the end-of-block packet went into the channel
    pc: WriterPc,
    call: Call
  )

  /** The packet channel and the signal that stops the heartbeats. */
  datatype Channel = Channel(queue: seq<Packet>, queueClosed: bool, signalClosed: bool)

  /** The ack loop. */
  datatype Acker = Acker(
    pc: AckerPc,
    taken: seq<Packet>,            // packets taken off the channel
    acked: nat,                    // how many of those were matched
    read: seq<Ack>,
    error: Option<AckFailure>
  )

  /** The connection, its lock, and the heartbeat sender. */
  datatype Net = Net(
    lock: Holder,
    heartbeat: HeartbeatPc,
    wire: seq<Token>,
    broken: bool,                  // some connection write failed
    frames: seq<Packet>            // frames completely written, heartbeats included
  )

  datatype State = State(w: Writer, ch: Channel, ack: Acker, net: Net)

  function Init(base: nat): State {
    State(Writer(base, [], Fresh(base), Fresh(base), false, false, Idle, NoCall),
          Channel([], false, false),
          Acker(Receiving, [], 0, [], None),
          Net(Free, Ticking, [], false, []))
  }

  /** Every packet that ever went into the channel. */
  function Enqueued(w: Writer): seq<Packet> {
    if w.lastSent then w.core.sent + [LastPacket(w.core)] else w.core.sent
  }

  function Force(c: Caller): bool {
    c != InWrite
  }

  /** `getAckError`: an ack error is visible only once the ack loop has returned. */
  predicate AckErrorVisible(k: Acker) {
    k.pc == AckerDone && k.error.Some?
  }

  datatype Action =
    // writer
    | CallWrite(b: Bytes) | CallFlush | CallFinish
    | CheckAcks | LoopFlush | Send | TakeLock | WriteSegment | FailSegment(written: nat)
    | DoCloseSignal | DoCloseQueue | CollectAcks
    // ack loop
    | Receive | ReadAck(ack: Ack) | Drain | EndOfPackets
    // heartbeat sender
    | Tick | HeartbeatTakesLock | HeartbeatWrites | HeartbeatFails(written: nat) | HeartbeatStops

  predicate Enabled(s: State, a: Action) {
    match a
    case CallWrite(_) => s.w.pc == Idle
    case CallFlush => s.w.pc == Idle
    case CallFinish => s.w.pc == Idle
    case CheckAcks => s.w.pc.FlushCheck?
    case LoopFlush => s.w.pc.FlushHead?
    case Send => s.w.pc.Sending? && (s.ch.queueClosed || |s.ch.queue| < MAX_QUEUE)
    case TakeLock => s.w.pc.WantLock? && s.net.lock == Free
    case WriteSegment => s.w.pc.Writing? && s.w.pc.k < 3
    case FailSegment(written) =>
      s.w.pc.Writing? && s.w.pc.k < 3 && written <= |Segment(s.w.pc.packet, s.w.pc.k)|
    case DoCloseSignal => s.w.pc.CloseSignal?
    case DoCloseQueue => s.w.pc.CloseQueue?
    case CollectAcks => s.w.pc.WaitAcks? && s.ack.pc == AckerDone
    case Receive => s.ack.pc == Receiving && s.ch.queue != []
    case ReadAck(_) => s.ack.pc.Awaiting?
    case Drain => s.ack.pc == Draining && s.ch.queue != []
    case EndOfPackets => (s.ack.pc == Receiving || s.ack.pc == Draining) && s.ch.queue == [] && s.ch.queueClosed
    case Tick => s.net.heartbeat == Ticking
    case HeartbeatTakesLock => s.net.heartbeat == HeartbeatWantsLock && s.net.lock == Free
    case HeartbeatWrites => s.net.heartbeat == HeartbeatWriting
    case HeartbeatFails(written) => s.net.heartbeat == HeartbeatWriting && written <= |Encode(HeartbeatPacket())|
    case HeartbeatStops => s.net.heartbeat == Ticking && s.ch.signalClosed
  }

  // --- steps of the writer ---

  function BeginWrite(w: Writer, b: Bytes, ackError: bool): Writer {
    if w.closed then w.(call := Rejected(ClosedPipe))
    else if ackError then w.(call := Rejected(Failed))
    else
      var c := w.core.(buf := w.core.buf + b);
      w.(accepted := w.accepted + b, core := c, before := c, pc := FlushCheck(InWrite))
  }

  function BeginFlush(w: Writer): Writer {
    w.(before := w.core, pc := FlushCheck(InFlush))
  }

  function BeginFinish(w: Writer, ackError: bool): Writer {
    if w.closed then w.(call := FinishedAgain)
    else w.(closed := true, before := w.core, pc := if ackError then CloseSignal(Failed) else FlushCheck(InFinish))
  }

  /** flush returns `err` to its caller. */
  function ReturnFromFlush(w: Writer, caller: Caller, err: Error): Writer {
    match caller
    case InWrite => w.(pc := Idle, call := Wrote(w.before, err))
    case InFlush => w.(pc := Idle, call := Flushed(w.before, err))
    case InFinish => w.(pc := if err == Nil then Sending(LastPacket(w.core), InFinish) else CloseSignal(err))
  }

  /** writePacket returns `err`. */
  function ReturnFromWritePacket(w: Writer, p: Packet, caller: Caller, err: Error): Writer {
    if p.last then w.(pc := CloseSignal(err))
    else if err == Nil then w.(pc := FlushHead(caller))
    else ReturnFromFlush(w, caller, err)
  }

  function CheckAcksStep(w: Writer, ackError: bool): Writer
    requires w.pc.FlushCheck?
  {
    if ackError then ReturnFromFlush(w, w.pc.caller, Failed) else w.(pc := FlushHead(w.pc.caller))
  }

  function LoopFlushStep(w: Writer): Writer
    requires w.pc.FlushHead?
  {
    if CanEmit(w.core, Force(w.pc.caller)) then w.(pc := Sending(NextPacket(w.core), w.pc.caller))
    else ReturnFromFlush(w, w.pc.caller, Nil)
  }

  /** The buffer is private to the writer, so taking the packet's bytes out of it is
      accounted for here rather than when the packet was made. */
  function SendStep(w: Writer): Writer
    requires w.pc.Sending?
  {
    var p := w.pc.packet;
    if p.last then w.(lastSent := true, pc := WantLock(p, w.pc.caller))
    else
      var rest := w.core.buf[Min(|p.data|, |w.core.buf|)..];
      w.(core := Core(rest, w.core.offset + |p.data|, w.core.seqno + 1, w.core.sent + [p]),
         pc := WantLock(p, w.pc.caller))
  }

  function WriteSegmentStep(w: Writer): Writer
    requires w.pc.Writing? && w.pc.k < 3
  {
    if w.pc.k < 2 then w.(pc := Writing(w.pc.packet, w.pc.k + 1, w.pc.caller))
    else ReturnFromWritePacket(w, w.pc.packet, w.pc.caller, Nil)
  }

  function CollectAcksStep(w: Writer, ackError: bool): Writer
    requires w.pc.WaitAcks?
  {
    w.(pc := Idle, call := Finished(w.before, if w.pc.err == Nil && ackError then Failed else w.pc.err))
  }

  /** The segment just written reaches the wire; the lock is released after the last. */
  function SegmentOnNet(n: Net, p: Packet, k: nat): Net
    requires k < 3
  {
    var m := n.(wire := n.wire + Segment(p, k));
    if k < 2 then m else m.(frames := n.frames + [p], lock := Free)
  }

  // --- steps of the ack loop ---

  function TakePacket(k: Acker, p: Packet, pc: AckerPc): Acker {
    k.(pc := pc, taken := k.taken + [p])
  }

  function ReadAckStep(k: Acker, a: Ack): Acker
    requires k.pc.Awaiting?
  {
    var r := k.(read := k.read + [a]);
    match Judge(k.pc.packet, a)
    case Skip => r
    case Match => r.(acked := k.acked + 1, pc := Receiving)
    case Bad(f) => r.(error := Some(f), pc := Draining)
  }

  // --- steps of the heartbeat sender ---

  function HeartbeatOnNet(n: Net): Net {
    n.(wire := n.wire + Encode(HeartbeatPacket()), frames := n.frames + [HeartbeatPacket()],
       lock := Free, heartbeat := Ticking)
  }

  function Do(s: State, a: Action): State
    requires Enabled(s, a)
  {
    match a
    case CallWrite(b) => s.(w := BeginWrite(s.w, b, AckErrorVisible(s.ack)))
    case CallFlush => s.(w := BeginFlush(s.w))
    case CallFinish => s.(w := BeginFinish(s.w, AckErrorVisible(s.ack)))
    case CheckAcks => s.(w := CheckAcksStep(s.w, AckErrorVisible(s.ack)))
    case LoopFlush => s.(w := LoopFlushStep(s.w))
    case Send =>
      if s.ch.queueClosed then s.(w := s.w.(pc := Panicked))
      else s.(w := SendStep(s.w), ch := s.ch.(queue := s.ch.queue + [s.w.pc.packet]))
    case TakeLock =>
      s.(w := s.w.(pc := Writing(s.w.pc.packet, 0, s.w.pc.caller)), net := s.net.(lock := ByWriter))
    case WriteSegment =>
      s.(w := WriteSegmentStep(s.w), net := SegmentOnNet(s.net, s.w.pc.packet, s.w.pc.k))
    case FailSegment(written) =>
      s.(w := ReturnFromWritePacket(s.w, s.w.pc.packet, s.w.pc.caller, Failed),
         net := s.net.(wire := s.net.wire + Segment(s.w.pc.packet, s.w.pc.k)[..written], broken := true, lock := Free))
    case DoCloseSignal => s.(w := s.w.(pc := CloseQueue(s.w.pc.err)), ch := s.ch.(signalClosed := true))
    case DoCloseQueue => s.(w := s.w.(pc := WaitAcks(s.w.pc.err)), ch := s.ch.(queueClosed := true))
    case CollectAcks => s.(w := CollectAcksStep(s.w, s.ack.error.Some?))
    case Receive =>
      s.(ack := TakePacket(s.ack, s.ch.queue[0], Awaiting(s.ch.queue[0])), ch := s.ch.(queue := s.ch.queue[1..]))
    case ReadAck(ack) => s.(ack := ReadAckStep(s.ack, ack))
    case Drain => s.(ack := TakePacket(s.ack, s.ch.queue[0], Draining), ch := s.ch.(queue := s.ch.queue[1..]))
    case EndOfPackets => s.(ack := s.ack.(pc := AckerDone))
    case Tick => s.(net := s.net.(heartbeat := HeartbeatWantsLock))
    case HeartbeatTakesLock => s.(net := s.net.(lock := ByHeartbeat, heartbeat := HeartbeatWriting))
    case HeartbeatWrites => s.(net := HeartbeatOnNet(s.net))
    case HeartbeatFails(written) =>
      s.(net := s.net.(wire := s.net.wire + Encode(HeartbeatPacket())[..written], broken := true,
                       lock := Free, heartbeat := Ticking))
    case HeartbeatStops => s.(net := s.net.(heartbeat := HeartbeatDone))
  }

  /** The state after a run, or None if the run takes a step that is not possible. */
  function Exec(base: nat, run: seq<Action>): Option<State> {
    if run == [] then Some(Init(base))
    else
      match Exec(base, run[..|run| - 1])
      case None => None
      case Some(s) => if Enabled(s, run[|run| - 1]) then Some(Do(s, run[|run| - 1])) else None
  }
}
