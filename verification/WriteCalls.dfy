/**
 Each call on a write stream, from the state in which it begins to every later state before
 the next call, whatever the ack loop, the heartbeat sender and the datanode do meanwhile.
 When the call is over it has done what the sequential stream promises of it.
 */
module WriteCalls {
  import opened Common
  import opened Packets
  import opened Acks
  import opened WriteProtocol
  import opened WriteSafety

  predicate NoCalls(more: seq<Action>) {
    forall i :: 0 <= i < |more| ==> !IsCall(more[i])
  }

  /** The call that `t` is in, or that returned last there, began in `s`. An open stream takes
      the bytes of a Write, flushes from them or from what it held, and after a finish is
      closed. A closed stream stays as it is; a Flush on it reports the ack error, or panics
      on the closed channel if there is a packet to cut. */
  ghost predicate SequentialOutcome(s: State, call: Action, t: State)
    requires IsCall(call)
  {
    match call
    case CallWrite(b) =>
      if s.w.closed then
        t.w == s.w.(call := Rejected(ClosedPipe)) && t.ack == s.ack
      else
        && t.w.accepted == s.w.accepted + b && !t.w.closed && t.w.pc != Panicked
        && (t.w.pc == Idle ==>
              && t.w.call.Wrote?
              && FlushOutcome(s.w.core.(buf := s.w.core.buf + b), t.w.core, false, t.w.call.err))
    case CallFlush =>
      if s.w.closed then
        && t.w == s.w.(pc := t.w.pc, before := t.w.before, call := t.w.call) && t.ack == s.ack
        && (t.w.pc == Idle ==>
              && t.w.call == Flushed(s.w.core, if s.ack.error.Some? then Failed else Nil)
              && (s.ack.error == None ==> !CanEmit(s.w.core, true)))
        && (t.w.pc == Panicked ==> s.ack.error == None && CanEmit(s.w.core, true))
      else
        && t.w.accepted == s.w.accepted && !t.w.closed && t.w.pc != Panicked
        && (t.w.pc == Idle ==> t.w.call.Flushed? && FlushOutcome(s.w.core, t.w.core, true, t.w.call.err))
    case CallFinish =>
      if s.w.closed then
        t.w == s.w.(call := FinishedAgain) && t.ack == s.ack
      else
        && t.w.accepted == s.w.accepted && t.w.closed && t.w.pc != Panicked
        && (t.w.pc == Idle ==>
              && t.w.call.Finished?
              && FinishOutcome(s.w.core, t.w.core, t.w.lastSent, t.ack.read, t.ack.acked, t.ack.error, t.w.call.err))
  }

  lemma {:induction false} PrefixRuns(base: nat, run: seq<Action>, more: seq<Action>)
    requires Exec(base, run + more).Some?
    ensures Exec(base, run).Some?
    decreases |more|
  {
    if more == [] {
      assert run + more == run;
    } else {
      assert (run + more)[..|run + more| - 1] == run + more[..|more| - 1];
      PrefixRuns(base, run, more[..|more| - 1]);
    }
  }

  /** The last step of a continuation. */
  lemma LastStep(base: nat, run: seq<Action>, more: seq<Action>) returns (init: seq<Action>, u: State)
    requires more != [] && Exec(base, run + more).Some? && NoCalls(more)
    ensures init == more[..|more| - 1] && NoCalls(init)
    ensures Exec(base, run + init) == Some(u) && CloseInv(u.w, u.ch, u.ack.pc == AckerDone)
    ensures var a := more[|more| - 1]; !IsCall(a) && Enabled(u, a) && Exec(base, run + more) == Some(Do(u, a))
  {
    init := more[..|more| - 1];
    assert (run + more)[..|run + more| - 1] == run + init;
    u := Exec(base, run + init).value;
    RunKeepsInv(base, run + init);
  }

  // --- calls that run ---

  /** The running call, or the one that returned last, is `caller`'s, and flushes from `before`. */
  predicate Serves(w: Writer, caller: Caller, before: Core) {
    && w.before == before
    && match w.pc
       case Idle =>
         (match caller
          case InWrite => w.call.Wrote? && w.call.before == before
          case InFlush => w.call.Flushed? && w.call.before == before
          case InFinish => w.call.Finished? && w.call.before == before)
       case FlushCheck(c) => c == caller
       case FlushHead(c) => c == caller
       case Sending(_, c) => c == caller
       case WantLock(_, c) => c == caller
       case Writing(_, _, c) => c == caller
       case Panicked => caller == InFlush
       case _ => caller == InFinish
  }

  /** Only a new call changes what was accepted, whether the stream is closed, or whom the
      writer serves. */
  lemma StepServes(s: State, a: Action, caller: Caller, before: Core)
    requires Enabled(s, a) && !IsCall(a) && Serves(s.w, caller, before)
    requires CloseInv(s.w, s.ch, s.ack.pc == AckerDone)
    ensures var t := Do(s, a);
            Serves(t.w, caller, before) && t.w.accepted == s.w.accepted && t.w.closed == s.w.closed
  {
    if OnConnection(a) {
      ConnectionServes(s, a, caller, before);
    } else if ByOthers(a) {
      assert Do(s, a).w == s.w;
    }
  }

  lemma ConnectionServes(s: State, a: Action, caller: Caller, before: Core)
    requires Enabled(s, a) && OnConnection(a) && Serves(s.w, caller, before)
    requires CloseInv(s.w, s.ch, s.ack.pc == AckerDone)
    ensures var t := Do(s, a);
            Serves(t.w, caller, before) && t.w.accepted == s.w.accepted && t.w.closed == s.w.closed
  {
  }

  lemma {:induction false} RunServes(base: nat, run: seq<Action>, more: seq<Action>, caller: Caller, before: Core)
    requires Exec(base, run).Some? && Exec(base, run + more).Some? && NoCalls(more)
    requires Serves(Exec(base, run).value.w, caller, before)
    ensures var s, t := Exec(base, run).value, Exec(base, run + more).value;
            Serves(t.w, caller, before) && t.w.accepted == s.w.accepted && t.w.closed == s.w.closed
    decreases |more|
  {
    if more == [] {
      assert run + more == run;
    } else {
      var init, u := LastStep(base, run, more);
      RunServes(base, run, init, caller, before);
      StepServes(u, more[|more| - 1], caller, before);
    }
  }

  // --- calls on a closed stream ---

  /** A call that returned at once: nothing moves the writer, and the ack loop has ended. */
  lemma {:induction false} RunRests(base: nat, run: seq<Action>, more: seq<Action>)
    requires Exec(base, run).Some? && Exec(base, run + more).Some? && NoCalls(more)
    requires Exec(base, run).value.w.pc == Idle && Exec(base, run).value.w.closed
    ensures var s, t := Exec(base, run).value, Exec(base, run + more).value; t.w == s.w && t.ack == s.ack
    decreases |more|
  {
    if more == [] {
      assert run + more == run;
    } else {
      var init, u := LastStep(base, run, more);
      RunRests(base, run, init);
    }
  }

  /** A Flush on the closed stream of `s`, under way in `t`. */
  predicate FlushesClosed(s: State, t: State) {
    && t.w == s.w.(pc := t.w.pc, before := t.w.before, call := t.w.call) && t.ack == s.ack
    && match t.w.pc
       case Idle =>
         && t.w.call == Flushed(s.w.core, if s.ack.error.Some? then Failed else Nil)
         && (s.ack.error == None ==> !CanEmit(s.w.core, true))
       case FlushCheck(c) => c == InFlush && t.w.before == s.w.core
       case FlushHead(c) => c == InFlush && t.w.before == s.w.core && s.ack.error == None
       case Sending(_, c) => c == InFlush && s.ack.error == None && CanEmit(s.w.core, true)
       case Panicked => s.ack.error == None && CanEmit(s.w.core, true)
       case _ => false
  }

  lemma {:induction false} RunFlushesClosed(base: nat, run: seq<Action>, more: seq<Action>, s: State)
    requires Exec(base, run).Some? && Exec(base, run + more).Some? && NoCalls(more)
    requires FlushesClosed(s, Exec(base, run).value) && s.w.closed
    ensures FlushesClosed(s, Exec(base, run + more).value)
    decreases |more|
  {
    if more == [] {
      assert run + more == run;
    } else {
      var init, u := LastStep(base, run, more);
      RunFlushesClosed(base, run, init, s);
    }
  }

  // --- the theorem ---

  /** Every call behaves like the sequential stream's, in every interleaving. */
  lemma CallsAreSequential(base: nat, run: seq<Action>, call: Action, more: seq<Action>)
    requires IsCall(call) && NoCalls(more) && Exec(base, run + [call] + more).Some?
    ensures Exec(base, run).Some?
    ensures SequentialOutcome(Exec(base, run).value, call, Exec(base, run + [call] + more).value)
  {
    PrefixRuns(base, run + [call], more);
    assert (run + [call])[..|run|] == run;
    var s := Exec(base, run).value;
    RunKeepsInv(base, run);
    RunKeepsInv(base, run + [call] + more);
    if !s.w.closed {
      match call {
        case CallWrite(b) => RunServes(base, run + [call], more, InWrite, s.w.core.(buf := s.w.core.buf + b));
        case CallFlush => RunServes(base, run + [call], more, InFlush, s.w.core);
        case CallFinish => RunServes(base, run + [call], more, InFinish, s.w.core);
      }
    } else if call.CallFlush? {
      RunFlushesClosed(base, run + [call], more, s);
    } else {
      RunRests(base, run + [call], more);
    }
  }

  // --- what the result of finish says ---

  /** The end-of-block packet was sent, and it and every packet before it were acknowledged. */
  predicate AllAcked(s: State) {
    s.w.lastSent && s.ack.acked == |Enqueued(s.w)| && s.ack.error == None
  }

  /** Calls do not fail for nothing: a connection write has failed, or an ack was bad. */
  predicate Caused(s: State) {
    match s.w.pc
    case Idle =>
      && (s.w.call.Wrote? && s.w.call.err != Nil ==> s.net.broken)
      && (s.w.call.Flushed? || s.w.call.Finished? ==>
            s.w.call.err != Nil ==> s.net.broken || s.ack.error.Some?)
    case CloseSignal(err) => err != Nil ==> s.net.broken
    case CloseQueue(err) => err != Nil ==> s.net.broken
    case WaitAcks(err) => err != Nil ==> s.net.broken
    case _ => true
  }

  lemma ConnectionKeepsCaused(s: State, a: Action)
    requires Enabled(s, a) && OnConnection(a)
    ensures Caused(Do(s, a))
  {
  }

  lemma StepKeepsCaused(s: State, a: Action)
    requires Enabled(s, a) && Caused(s) && CloseInv(s.w, s.ch, s.ack.pc == AckerDone)
    requires s.ack.pc.Awaiting? ==> s.ack.error == None
    ensures Caused(Do(s, a))
  {
    if OnConnection(a) {
      ConnectionKeepsCaused(s, a);
    } else if ByOthers(a) {
      assert Do(s, a).w == s.w;
    }
  }

  lemma {:induction false} RunKeepsCaused(base: nat, run: seq<Action>)
    requires Exec(base, run).Some?
    ensures Caused(Exec(base, run).value)
    decreases |run|
  {
    if run != [] {
      var init := run[..|run| - 1];
      RunKeepsCaused(base, init);
      RunKeepsInv(base, init);
      StepKeepsCaused(Exec(base, init).value, run[|run| - 1]);
    }
  }

  /** In a run without a failed connection write, the first finish returns nil exactly if all
      was acknowledged; a nil means that in every run. */
  lemma FinishIsExact(base: nat, run: seq<Action>)
    requires Exec(base, run).Some?
    requires var s := Exec(base, run).value; s.w.pc == Idle && s.w.call.Finished?
    ensures var s := Exec(base, run).value;
            && (s.w.call.err == Nil ==> AllAcked(s))
            && (!s.net.broken ==> (s.w.call.err == Nil <==> AllAcked(s)))
  {
    RunKeepsInv(base, run);
    RunKeepsCaused(base, run);
  }

  /** A connection write for a packet has failed on the way. */
  predicate AnyFailure(more: seq<Action>) {
    exists i :: 0 <= i < |more| && more[i].FailSegment?
  }

  lemma AnyFailureSnoc(more: seq<Action>)
    requires more != []
    ensures AnyFailure(more) <==> AnyFailure(more[..|more| - 1]) || more[|more| - 1].FailSegment?
  {
    var init := more[..|more| - 1];
    if AnyFailure(more) {
      var i :| 0 <= i < |more| && more[i].FailSegment?;
      assert i < |init| ==> init[i].FailSegment?;
    }
    if AnyFailure(init) {
      var i :| 0 <= i < |init| && init[i].FailSegment?;
      assert more[i].FailSegment?;
    }
  }

  /** The error a call on an open stream has run into so far, if a write failed or not. */
  predicate Reports(s: State, failed: bool) {
    match s.w.pc
    case Idle =>
      && (s.w.call.Wrote? || s.w.call.Flushed? || s.w.call.Finished?)
      && (s.w.call.err == Failed <==> failed || (s.w.call.Finished? && s.ack.error.Some?))
      && (s.w.call.Finished? ==> s.ack.pc == AckerDone)
    case CloseSignal(err) => err == if failed then Failed else Nil
    case CloseQueue(err) => err == if failed then Failed else Nil
    case WaitAcks(err) => err == if failed then Failed else Nil
    case _ => !failed
  }

  lemma ConnectionReports(s: State, a: Action, failed: bool)
    requires Enabled(s, a) && OnConnection(a) && Reports(s, failed)
    ensures Reports(Do(s, a), failed || a.FailSegment?)
  {
  }

  lemma StepReports(s: State, a: Action, failed: bool)
    requires Enabled(s, a) && !IsCall(a) && Reports(s, failed)
    requires CloseInv(s.w, s.ch, s.ack.pc == AckerDone) && (s.w.pc.FlushCheck? ==> !AckErrorVisible(s.ack))
    ensures Reports(Do(s, a), failed || a.FailSegment?)
  {
    if OnConnection(a) {
      ConnectionReports(s, a, failed);
    } else if ByOthers(a) {
      assert Do(s, a).w == s.w;
    }
  }

  lemma {:induction false} RunReports(base: nat, run: seq<Action>, more: seq<Action>, caller: Caller, before: Core)
    requires Exec(base, run).Some? && Exec(base, run + more).Some? && NoCalls(more)
    requires var s := Exec(base, run).value; Serves(s.w, caller, before) && s.w.pc == FlushCheck(caller)
    requires caller != InFlush || !Exec(base, run).value.w.closed
    ensures Reports(Exec(base, run + more).value, AnyFailure(more))
    decreases |more|
  {
    if more == [] {
      assert run + more == run;
    } else {
      var init, u := LastStep(base, run, more);
      RunReports(base, run, init, caller, before);
      RunServes(base, run, init, caller, before);
      AnyFailureSnoc(more);
      StepReports(u, more[|more| - 1], AnyFailure(init));
    }
  }

  /** Errors are exact. A call on an open stream that is over has failed exactly if a connection
      write for one of its packets failed or, for a finish, an ack was bad. A heartbeat that
      fails is never reported. */
  lemma ErrorsAreExact(base: nat, run: seq<Action>, call: Action, more: seq<Action>)
    requires IsCall(call) && NoCalls(more) && Exec(base, run + [call] + more).Some?
    ensures Exec(base, run).Some?
    ensures var s, t := Exec(base, run).value, Exec(base, run + [call] + more).value;
            !s.w.closed && t.w.pc == Idle ==>
              && (t.w.call.Wrote? || t.w.call.Flushed? || t.w.call.Finished?)
              && (t.w.call.err == Failed <==> AnyFailure(more) || (call.CallFinish? && t.ack.error.Some?))
  {
    CallsAreSequential(base, run, call, more);
    PrefixRuns(base, run + [call], more);
    assert (run + [call])[..|run|] == run;
    var s := Exec(base, run).value;
    RunKeepsInv(base, run);
    if !s.w.closed {
      match call {
        case CallWrite(b) => RunReports(base, run + [call], more, InWrite, s.w.core.(buf := s.w.core.buf + b));
        case CallFlush => RunReports(base, run + [call], more, InFlush, s.w.core);
        case CallFinish => RunReports(base, run + [call], more, InFinish, s.w.core);
      }
    }
  }

  /** finish is over, and at most a Flush is under way. */
  predicate Over(s: State) {
    && FinishOver(s.w, s.ch, s.ack.pc == AckerDone)
    && match s.w.pc
       case Idle => true
       case FlushCheck(c) => c == InFlush
       case FlushHead(c) => c == InFlush
       case Sending(_, c) => c == InFlush
       case Panicked => true
       case _ => false
  }

  lemma OverStep(s: State, a: Action)
    requires Enabled(s, a) && Over(s)
    ensures var t := Do(s, a);
            && Over(t) && t.ack == s.ack && t.w.core == s.w.core
            && t.w.lastSent == s.w.lastSent && t.w.accepted == s.w.accepted
  {
    if ByOthers(a) {
      assert Do(s, a).w == s.w;
    }
  }

  /** After the first finish, no call and no other step changes what was sent or acknowledged. */
  lemma {:induction false} FinishIsFinal(base: nat, run: seq<Action>, more: seq<Action>)
    requires Exec(base, run).Some? && Exec(base, run + more).Some? && Over(Exec(base, run).value)
    ensures var s, t := Exec(base, run).value, Exec(base, run + more).value;
            && Over(t) && t.ack == s.ack && t.w.core == s.w.core
            && t.w.lastSent == s.w.lastSent && t.w.accepted == s.w.accepted
    decreases |more|
  {
    if more == [] {
      assert run + more == run;
    } else {
      var init := more[..|more| - 1];
      assert (run + more)[..|run + more| - 1] == run + init;
      FinishIsFinal(base, run, init);
      OverStep(Exec(base, run + init).value, more[|more| - 1]);
    }
  }

  /** What later calls can rely on: after any further calls, in any interleaving, all is
      acknowledged exactly if the first finish returned nil. */
  lemma FirstFinishDecides(base: nat, run: seq<Action>, more: seq<Action>)
    requires Exec(base, run).Some? && Exec(base, run + more).Some?
    requires var s := Exec(base, run).value; s.w.pc == Idle && s.w.call.Finished? && !s.net.broken
    ensures AllAcked(Exec(base, run + more).value) <==> Exec(base, run).value.w.call.err == Nil
  {
    FinishIsExact(base, run);
    RunKeepsInv(base, run);
    FinishIsFinal(base, run, more);
  }

  /** In particular, a second finish, which always returns nil, means that all is acknowledged
      exactly if the first one returned nil. */
  lemma SecondFinish(base: nat, run: seq<Action>, more: seq<Action>)
    requires NoCalls(more) && Exec(base, run).Some? && Exec(base, run + [CallFinish] + more).Some?
    requires var s := Exec(base, run).value; s.w.pc == Idle && s.w.call.Finished? && !s.net.broken
    ensures var s, t := Exec(base, run).value, Exec(base, run + [CallFinish] + more).value;
            t.w.pc == Idle && t.w.call == FinishedAgain && (AllAcked(t) <==> s.w.call.err == Nil)
  {
    RunKeepsInv(base, run);
    CallsAreSequential(base, run, CallFinish, more);
    assert run + [CallFinish] + more == run + ([CallFinish] + more);
    FirstFinishDecides(base, run, [CallFinish] + more);
  }
}
