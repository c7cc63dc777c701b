/**
 Why calls on a write stream come to an end: every step of the writer and of the ack loop
 uses up part of a finite amount of work, except for skipping the ack of a heartbeat.
 Together with the absence of deadlocks, every running call can return if the datanode just
 answers or hangs up; and with the right answers, it returns nil.
 */
module WriteTermination {
  import opened Common
  import opened Packets
  import opened Acks
  import opened Wire
  import opened WriteProtocol
  import opened WriteSafety
  import opened WriteTheorems

  /** Work left in the writer's current position, apart from the buffered bytes. */
  function PositionWork(pc: WriterPc): nat {
    match pc
    case Idle => 0
    case Panicked => 0
    case FlushCheck(_) => 14
    case FlushHead(_) => 13
    case Sending(_, _) => 12
    case WantLock(p, _) => if p.last then 9 else 17
    case Writing(p, k, _) => if k >= 3 then 0 else (if p.last then 8 else 16) - k
    case CloseSignal(_) => 5
    case CloseQueue(_) => 4
    case WaitAcks(_) => 3
  }

  function AckerWork(pc: AckerPc): nat {
    match pc
    case Awaiting(_) => 2
    case Receiving => 1
    case Draining => 1
    case AckerDone => 0
  }

  function Work(s: State): nat {
    16 * |s.w.core.buf| + PositionWork(s.w.pc) + 2 * |s.ch.queue| + AckerWork(s.ack.pc)
  }

  predicate IsHeartbeatAck(a: Ack) {
    a.Ack? && a.seqno == HEARTBEAT_SEQNO && AllSuccess(a.replies)
  }

  /** The steps of the writer and the ack loop that get something done. */
  predicate Works(a: Action) {
    && !IsCall(a)
    && !a.Tick? && !a.HeartbeatTakesLock? && !a.HeartbeatWrites? && !a.HeartbeatFails? && !a.HeartbeatStops?
    && !(a.ReadAck? && IsHeartbeatAck(a.ack))
  }

  lemma SendUsesWork(s: State)
    requires Enabled(s, Send) && FlushInv(s.w)
    ensures Work(Do(s, Send)) < Work(s)
  {
    if !s.ch.queueClosed && !s.w.pc.packet.last {
      SendKeepsFlush(s.w);
    }
  }

  lemma ReadAckUsesWork(s: State, a: Ack)
    requires Enabled(s, ReadAck(a))
    ensures Work(Do(s, ReadAck(a))) + (if IsHeartbeatAck(a) then 0 else 1) <= Work(s)
  {
  }

  lemma ConnectionUsesWork(s: State, a: Action)
    requires Enabled(s, a) && OnConnection(a) && CloseInv(s.w, s.ch, s.ack.pc == AckerDone)
    ensures Work(Do(s, a)) < Work(s)
  {
  }

  /** Every step that gets something done uses up work; the other steps, new calls aside, do
      not add any. */
  lemma StepUsesWork(s: State, a: Action)
    requires Enabled(s, a) && !IsCall(a) && CloseInv(s.w, s.ch, s.ack.pc == AckerDone) && FlushInv(s.w)
    ensures Work(Do(s, a)) + (if Works(a) then 1 else 0) <= Work(s)
  {
    hide FlushInv, CloseInv;
    if a.Send? {
      SendUsesWork(s);
    } else if a.ReadAck? {
      ReadAckUsesWork(s, a.ack);
    } else if OnConnection(a) {
      ConnectionUsesWork(s, a);
    }
  }

  function CountWorking(run: seq<Action>): nat {
    if run == [] then 0 else CountWorking(run[..|run| - 1]) + if Works(run[|run| - 1]) then 1 else 0
  }

  /** Between two calls, only boundedly many steps get something done, in every run. */
  lemma {:induction false} CallsEnd(base: nat, run: seq<Action>, more: seq<Action>)
    requires Exec(base, run).Some? && Exec(base, run + more).Some?
    requires forall i :: 0 <= i < |more| ==> !IsCall(more[i])
    ensures CountWorking(more) + Work(Exec(base, run + more).value) <= Work(Exec(base, run).value)
    decreases |more|
  {
    if more == [] {
      assert run + more == run;
    } else {
      var init, last := more[..|more| - 1], more[|more| - 1];
      assert (run + more)[..|run + more| - 1] == run + init;
      CallsEnd(base, run, init);
      RunKeepsInv(base, run + init);
      StepUsesWork(Exec(base, run + init).value, last);
    }
  }

  /** Nothing has gone wrong in the running call, and no ack was bad. */
  predicate Healthy(s: State) {
    && s.ack.error == None
    && match s.w.pc
       case Idle => s.w.call.Wrote? || s.w.call.Flushed? || s.w.call.Finished? ==> s.w.call.err == Nil
       case CloseSignal(err) => err == Nil
       case CloseQueue(err) => err == Nil
       case WaitAcks(err) => err == Nil
       case _ => true
  }

  lemma {:induction false} DataFramesAreNumbered(ps: seq<Packet>, p: Packet)
    requires p in DataFrames(ps)
    ensures p.seqno != HEARTBEAT_SEQNO
    decreases |ps|
  {
    if p in DataFrames(ps[..|ps| - 1]) {
      DataFramesAreNumbered(ps[..|ps| - 1], p);
    }
  }

  /** What the datanode says next: it answers the packet awaited, or hangs up. */
  function Answer(s: State, hangUp: bool): Action
    requires s.ack.pc.Awaiting?
  {
    ReadAck(if hangUp then Unreadable else Ack(s.ack.pc.packet.seqno, []))
  }

  /** A goroutine moves by itself, or the datanode hangs up or reports success. */
  predicate Helps(a: Action, hangUp: bool) {
    Internal(a) || (a.ReadAck? && if hangUp then a.ack == Unreadable else a.ack.Ack? && AllSuccess(a.ack.replies))
  }

  lemma AnswerWorks(s: State, hangUp: bool)
    requires WaitsForDatanode(s)
    ensures Enabled(s, Answer(s, hangUp)) && Works(Answer(s, hangUp))
    ensures !hangUp && Healthy(s) ==> Healthy(Do(s, Answer(s, hangUp)))
  {
    DataFramesAreNumbered(Parse(s.net.wire).frames, s.ack.pc.packet);
  }

  lemma InternalStep(s: State, a: Action)
    requires Internal(a) && Enabled(s, a) && !s.net.broken
    ensures !Do(s, a).net.broken && (Healthy(s) ==> Healthy(Do(s, a)))
    ensures Works(a) || (s.net.heartbeat == HeartbeatWriting && Do(s, a).net.heartbeat == Ticking)
  {
  }

  function HeartbeatWork(s: State): nat {
    if s.net.heartbeat == HeartbeatWriting then 1 else 0
  }

  /** A running call gets ahead by one step, with the datanode's help if need be. */
  lemma Advance(base: nat, run: seq<Action>, s: State, hangUp: bool) returns (a: Action)
    requires Exec(base, run) == Some(s) && !s.net.broken && s.w.pc !in {Idle, Panicked}
    ensures Enabled(s, a) && Helps(a, hangUp)
    ensures var t := Do(s, a);
            && !t.net.broken && (!hangUp && Healthy(s) ==> Healthy(t))
            && (Work(t) < Work(s) || (Work(t) == Work(s) && HeartbeatWork(t) < HeartbeatWork(s)))
  {
    NoDeadlock(base, run);
    RunKeepsInv(base, run);
    hide CloseInv, FlushInv, Healthy, Work;
    if WaitsForDatanode(s) {
      a := Answer(s, hangUp);
      AnswerWorks(s, hangUp);
    } else {
      a :| Internal(a) && Enabled(s, a);
      InternalStep(s, a);
    }
    StepUsesWork(s, a);
  }

  /** Every running call can return. From any reachable state without a failed connection
      write, steps of the goroutines and answers of the datanode alone end the call; and if
      nothing has gone wrong so far and the datanode does answer, without an error. */
  lemma {:induction false} CallReturns(base: nat, run: seq<Action>, s: State, hangUp: bool)
    returns (more: seq<Action>, t: State)
    requires Exec(base, run) == Some(s) && !s.net.broken
    ensures Exec(base, run + more) == Some(t) && t.w.pc in {Idle, Panicked}
    ensures forall i :: 0 <= i < |more| ==> Helps(more[i], hangUp)
    ensures !hangUp && Healthy(s) ==> Healthy(t)
    decreases Work(s), HeartbeatWork(s)
  {
    hide *;
    if s.w.pc in {Idle, Panicked} {
      more, t := [], s;
      assert run + more == run;
    } else {
      var a := Advance(base, run, s, hangUp);
      var longer, u := Extend(base, run, s, a);
      more, t := CallReturns(base, longer, u, hangUp);
      assert longer + more == run + ([a] + more);
      more := [a] + more;
    }
  }
}
