/**
 RPC to the namenodes (internal/rpc/namenode.go): request ids, failover between hosts
 with a backoff, and matching a response to the request it answers.
 */
module Namenode {
  import opened Common

  const BACKOFF := 5
  const SASL_CALL_ID := -33
  const INT32_RANGE := 0x1_0000_0000

  /** The value of an int32 that has counted up to n from zero. */
  function Wrap32(n: nat): int {
    (n + 0x8000_0000) % INT32_RANGE - 0x8000_0000
  }

  /** `id++` on an int32. */
  function Increment(id: int): int {
    if id == 0x7fff_ffff then -0x8000_0000 else id + 1
  }

  lemma IncrementWraps(n: nat)
    ensures Increment(Wrap32(n)) == Wrap32(n + 1)
  {
    var m := n + 0x8000_0000;
    var q := m / INT32_RANGE;
    if m % INT32_RANGE == INT32_RANGE - 1 {
      assert m + 1 == (q + 1) * INT32_RANGE;
    } else {
      assert m + 1 == q * INT32_RANGE + (m % INT32_RANGE + 1);
    }
  }

  lemma Wrap32Injective(a: nat, b: nat)
    requires a < INT32_RANGE && b < INT32_RANGE && Wrap32(a) == Wrap32(b)
    ensures a == b
  {
  }

  datatype Host = Host(lastErrorAt: int, writeError: bool)

  /** A request written to a connection: its id on the wire, how far the counter had come,
      and the number of the Execute call it belongs to. */
  datatype Sent = Sent(id: int, serial: nat, call: nat)

  predicate InBackoff(h: Host, now: int) {
    h.lastErrorAt > now - BACKOFF
  }

  /** How many more failures a host can absorb before it goes into backoff. */
  function Weight(h: Host, now: int): nat {
    if InBackoff(h, now) then 0 else if h.writeError then 1 else 2
  }

  function TotalWeight(hosts: seq<Host>, now: int): nat {
    if hosts == [] then 0 else TotalWeight(hosts[..|hosts| - 1], now) + Weight(hosts[|hosts| - 1], now)
  }

  lemma {:induction false} WeightAt(hosts: seq<Host>, now: int, i: nat, h: Host)
    requires i < |hosts|
    ensures TotalWeight(hosts[i := h], now) == TotalWeight(hosts, now) - Weight(hosts[i], now) + Weight(h, now)
    decreases |hosts|
  {
    var k := |hosts| - 1;
    if i == k {
      assert hosts[i := h][..k] == hosts[..k];
    } else {
      WeightAt(hosts[..k], now, i, h);
      assert hosts[i := h][..k] == hosts[..k][i := h];
    }
  }

  predicate AllInBackoff(hosts: seq<Host>, now: int, n: nat)
    requires n <= |hosts|
  {
    forall i :: 0 <= i < n ==> InBackoff(hosts[i], now)
  }

  /** No host leaves its backoff between the two times. */
  predicate SameBackoff(hosts: seq<Host>, now: int, later: int) {
    forall i :: 0 <= i < |hosts| ==> (InBackoff(hosts[i], now) <==> InBackoff(hosts[i], later))
  }

  lemma {:induction false} SameBackoffSameWeight(hosts: seq<Host>, now: int, later: int)
    requires SameBackoff(hosts, now, later)
    ensures TotalWeight(hosts, now) == TotalWeight(hosts, later)
    decreases |hosts|
  {
    if hosts != [] {
      SameBackoffSameWeight(hosts[..|hosts| - 1], now, later);
    }
  }

  /** Serials on one connection go up strictly, and the ids are their int32 images. */
  ghost predicate Numbered(sent: seq<Sent>) {
    && (forall i :: 0 <= i < |sent| ==> sent[i].id == Wrap32(sent[i].serial))
    && (forall i, j :: 0 <= i < j < |sent| ==> sent[i].serial < sent[j].serial)
  }

  datatype Reading = Response(call: nat) | Standby | ReadEOF | Other | WriteFailed

  /** How an attempt leaves its host: a request that went out clears the mark of a write error, a
      first write error or hang-up sets it, and a second one or an inactive namenode means
      backoff. */
  function AfterAttempt(h: Host, r: Reading, now: int): Host {
    match r
    case WriteFailed => if h.writeError then h.(lastErrorAt := now) else h.(writeError := true)
    case ReadEOF => h.(writeError := true)
    case Standby => Host(now, false)
    case _ => h.(writeError := false)
  }

  datatype Status = Success | StandbyError | OtherError

  /** What comes back for a request: nothing, something that cannot be read, or a message with
      the id of some request and the call that belongs to. */
  datatype Reply = HungUp | Garbled | Message(id: int, call: nat, status: Status)

  /** What a reply means to a caller that waits for this id. */
  function Judged(reply: Reply, id: int): Reading {
    match reply
    case HungUp => ReadEOF
    case Garbled => Other
    case Message(rid, call, status) =>
      if rid != id then Other
      else
        match status
        case Success => Response(call)
        case StandbyError => Standby
        case OtherError => Other
  }

  class NamenodeConnection {
    const kerberos: bool
    var currentRequestID: int
    var serial: nat                     // currentRequestID without the wrap-around
    var hosts: seq<Host>
    var host: nat                       // index of the host last tried
    var connected: bool                 // conn != nil; it is then the last of conns
    var conns: seq<seq<Sent>>           // per connection ever made, the requests written to it
    var calls: nat                      // Execute calls so far
    var now: int

    var lastReply: Reply                // what was read last
    var faults: nat                     // dials and writes that failed, replies other than the response
    var released: nat                   // how often hosts got out of their backoff
    var hangUps: nat                    // replies that did not come

    ghost predicate Valid()
      reads this
    {
      && (connected || !kerberos ==> currentRequestID == Wrap32(serial)) && serial <= calls
      && (connected ==> conns != [] && host < |hosts| && !InBackoff(hosts[host], now))
      && (forall c :: 0 <= c < |conns| ==> Numbered(conns[c]) && AllUpTo(conns[c], calls))
      && (connected ==> AllUpTo(conns[|conns| - 1], serial))
      && now >= BACKOFF && (faults == 0 ==> Unmarked(hosts))
    }

    /** No host has failed yet. */
    static predicate Unmarked(hosts: seq<Host>) {
      forall i :: 0 <= i < |hosts| ==> hosts[i] == Host(0, false)
    }

    static ghost predicate AllBelow(sent: seq<Sent>, serial: nat) {
      forall i :: 0 <= i < |sent| ==> sent[i].serial < serial
    }

    static ghost predicate AllUpTo(sent: seq<Sent>, serial: nat) {
      forall i :: 0 <= i < |sent| ==> sent[i].serial <= serial
    }

    constructor (hosts: nat, kerberos: bool, now: int)
      requires now >= BACKOFF
      ensures Valid() && calls == 0 && !connected && this.kerberos == kerberos && conns == []
      ensures faults == 0 && |this.hosts| == hosts
    {
      this.kerberos, currentRequestID, serial, host, connected, conns, calls := kerberos, 0, 0, 0, false, [], 0;
      this.hosts := seq(hosts, _ => Host(0, false));
      this.now := now;
      lastReply, faults, released, hangUps := HungUp, 0, 0, 0;
    }

    /** Time passes. Each time that a host gets out of its backoff uses up some patience. */
    method Tick(patience: nat) returns (left: nat)
      requires Valid()
      modifies this`now, this`released
      ensures Valid() && left <= patience && now >= old(now) && released - old(released) == patience - left
      ensures left == patience ==> TotalWeight(hosts, now) == TotalWeight(hosts, old(now))
      ensures left == patience ==> SameBackoff(hosts, old(now), now)
    {
      left := patience;
      var later: int := *;
      if later > now {
        if SameBackoff(hosts, now, later) {
          SameBackoffSameWeight(hosts, now, later);
          now := later;
        } else if patience > 0 {
          left, released := patience - 1, released + 1;
          now := later;
        }
      }
    }

    /** markFailureLow: the connection is dropped; a first transient failure is only noted,
        any other sends the host into backoff. */
    method MarkFailure(transient: bool)
      requires Valid() && host < |hosts| && faults > 0
      modifies this`connected, this`hosts
      ensures Valid() && !connected
      ensures hosts == old(hosts)[host := if transient && !old(hosts)[host].writeError
                                          then old(hosts)[host].(writeError := true)
                                          else old(hosts)[host].(lastErrorAt := now)]
      ensures !InBackoff(old(hosts)[host], now) ==> TotalWeight(hosts, now) < old(TotalWeight(hosts, now))
    {
      connected := false;
      var h := hosts[host];
      var marked := if transient && !h.writeError then h.(writeError := true) else h.(lastErrorAt := now);
      WeightAt(hosts, now, host, marked);
      hosts := hosts[host := marked];
    }

    /** Dials host i and shakes hands with it. A SASL handshake borrows the request id, and
        sets it to zero when it has succeeded. */
    method Connect(i: nat) returns (err: Error)
      requires Valid() && !connected && i < |hosts| && !InBackoff(hosts[i], now)
      modifies this`host, this`connected, this`conns, this`currentRequestID, this`serial, this`faults
      ensures Valid() && host == i && err in {Nil, Failed} && faults == old(faults) + if err == Failed then 1 else 0
      ensures err == Nil ==> connected && conns[|conns| - 1] == []
      ensures forall c :: 0 <= c < |old(conns)| ==> c < |conns| && conns[c] == old(conns)[c]
    {
      host := i;
      var dialled: bool, shaken: bool, greeted: bool := *, *, *;
      if !dialled {
        faults := faults + 1;
        return Failed;
      }
      if kerberos {
        currentRequestID := SASL_CALL_ID;
        if !shaken {
          faults := faults + 1;
        return Failed;
        }
        currentRequestID, serial := 0, 0;
      }
      if !greeted {
        faults := faults + 1;
        return Failed;
      }
      connected, conns := true, conns + [[]];
      err := Nil;
    }

    method ResolveConnection(patience: nat) returns (err: Error, left: nat)
      requires Valid()
      modifies this`now, this`hosts, this`host, this`connected, this`conns, this`currentRequestID, this`serial
      modifies this`faults, this`released
      ensures Valid() && left <= patience && |hosts| == |old(hosts)|
      ensures faults >= old(faults) && released - old(released) == patience - left
      ensures faults == 0 && |hosts| > 0 ==> connected
      ensures left == patience ==> TotalWeight(hosts, now) <= old(TotalWeight(hosts, now))
      ensures err == (if connected then Nil else Failed)
      ensures err != Nil && left == patience ==> AllInBackoff(hosts, now, |hosts|)
      ensures old(connected) ==> connected && conns == old(conns) && serial == old(serial)
      ensures !old(connected) && connected ==> conns[|conns| - 1] == [] && host < |hosts|
      ensures !old(connected) && connected && left == patience ==> AllInBackoff(hosts, now, host)
    {
      left := patience;
      if connected {
        return Nil, left;
      }
      var i := 0;
      while i < |hosts| && !connected
        invariant i <= |hosts| == |old(hosts)| && Valid() && left <= patience
        invariant left == patience ==> TotalWeight(hosts, now) <= old(TotalWeight(hosts, now))
        invariant connected ==> conns[|conns| - 1] == [] && host < |hosts|
        invariant connected && left == patience ==> AllInBackoff(hosts, now, host)
        invariant !connected && left == patience ==> AllInBackoff(hosts, now, i)
        invariant faults >= old(faults) && released - old(released) == patience - left
        invariant faults == 0 && i > 0 ==> connected
        decreases |hosts| - i
      {
        left := Tick(left);
        if !InBackoff(hosts[i], now) {
          err := Connect(i);
          if err != Nil {
            MarkFailure(false);
          }
        }
        i := i + 1;
      }
      err := if connected then Nil else Failed;
    }

    /** Nothing with the current serial has been written to the current connection. */
    ghost predicate Unsent()
      reads this
    {
      connected ==> conns != [] && AllBelow(conns[|conns| - 1], serial)
    }

    method WriteRequest(call: nat) returns (err: Error)
      requires Valid() && connected && Unsent()
      modifies this`conns, this`faults
      ensures Valid() && |conns| == |old(conns)| && err in {Nil, Failed}
      ensures faults == old(faults) + if err == Failed then 1 else 0
      ensures conns[|conns| - 1] == old(conns)[|conns| - 1] + [Sent(currentRequestID, serial, call)]
    {
      var k := |conns| - 1;
      conns := conns[k := conns[k] + [Sent(currentRequestID, serial, call)]];
      var ok: bool := *;
      if ok {
        return Nil;
      }
      faults := faults + 1;
      err := Failed;
    }

    /** Waits for a reply. The namenode echoes the id of some request it got on this connection,
        not necessarily the last one. */
    method Receive()
      requires Valid() && connected
      modifies this`lastReply, this`hangUps
      ensures Valid() && hangUps == old(hangUps) + if lastReply == HungUp then 1 else 0
      ensures lastReply.Message? ==> IsEcho(conns[|conns| - 1], lastReply)
    {
      var sent := conns[|conns| - 1];
      var eof: bool, status: Status := *, *;
      var j: int := *;
      if eof {
        lastReply, hangUps := HungUp, hangUps + 1;
      } else if j < 0 || j >= |sent| {
        lastReply := Garbled;
      } else {
        lastReply := Message(sent[j].id, sent[j].call, status);
      }
    }

    static predicate IsEcho(sent: seq<Sent>, reply: Reply)
      requires reply.Message?
    {
      exists j :: 0 <= j < |sent| && sent[j].id == reply.id && sent[j].call == reply.call
    }

    /** Reads a response: exactly one with the id that was waited for is accepted. */
    method ReadResponse() returns (r: Reading)
      requires Valid() && connected && serial < INT32_RANGE
      requires conns[|conns| - 1] != []
      requires conns[|conns| - 1][|conns[|conns| - 1]| - 1].serial == serial
      modifies this`lastReply, this`hangUps, this`faults
      ensures Valid() && r == Judged(lastReply, currentRequestID)
      ensures r.Response? ==> r.call == conns[|conns| - 1][|conns[|conns| - 1]| - 1].call
      ensures faults == old(faults) + if r.Response? then 0 else 1
      ensures hangUps == old(hangUps) + if r == ReadEOF then 1 else 0
    {
      Receive();
      faults := faults + if lastReply.Message? && lastReply.id == currentRequestID && lastReply.status == Success then 0 else 1;
      if lastReply == HungUp {
        return ReadEOF;
      } else if lastReply == Garbled {
        return Other;
      } else if lastReply.id != currentRequestID {
        return Other;
      }
      ghost var sent := conns[|conns| - 1];
      ghost var j :| 0 <= j < |sent| && sent[j].id == lastReply.id && sent[j].call == lastReply.call;
      Wrap32Injective(sent[j].serial, serial);
      return if lastReply.status == Success then Response(lastReply.call)
             else if lastReply.status == StandbyError then Standby else Other;
    }

    /** Writes the request and reads the response on the open connection. Anything to retry
        costs the connection, and all but an EOF on read wears the host down. */
    method Attempt(call: nat) returns (r: Reading)
      requires Valid() && connected && Unsent() && serial < INT32_RANGE
      modifies this`conns, this`connected, this`hosts, this`lastReply, this`hangUps, this`faults
      ensures Valid() && |hosts| == |old(hosts)|
      ensures faults == old(faults) + if r.Response? then 0 else 1
      ensures hangUps == old(hangUps) + if r == ReadEOF then 1 else 0
      ensures hosts == old(hosts)[host := AfterAttempt(old(hosts)[host], r, now)]
      ensures r == Other ==> connected && Judged(lastReply, currentRequestID) == Other
      ensures r.Response? ==> r.call == call
      ensures r in {Standby, ReadEOF, WriteFailed} ==> !connected
      ensures r in {Standby, WriteFailed} ==> TotalWeight(hosts, now) < old(TotalWeight(hosts, now))
    {
      assert !InBackoff(hosts[host], now);
      hide TotalWeight, Numbered;
      r := SendAndRead(call);
      if r in {WriteFailed, ReadEOF} {
        MarkFailure(true);
      } else if r == Standby {
        MarkFailure(false);
      }
      WeightAt(old(hosts), now, host, AfterAttempt(old(hosts)[host], r, now));
    }

    /** Writes the request and, if that went well, clears the mark of a write error and reads the
        response. */
    method SendAndRead(call: nat) returns (r: Reading)
      requires Valid() && connected && Unsent() && serial < INT32_RANGE
      modifies this`conns, this`hosts, this`lastReply, this`hangUps, this`faults
      ensures Valid() && faults == old(faults) + if r.Response? then 0 else 1
      ensures hangUps == old(hangUps) + if r == ReadEOF then 1 else 0
      ensures r.Response? ==> r.call == call
      ensures r == Other ==> Judged(lastReply, currentRequestID) == Other
      ensures hosts == if r == WriteFailed then old(hosts) else old(hosts)[host := old(hosts)[host].(writeError := false)]
    {
      hide Numbered;
      var err := WriteRequest(call);
      if err != Nil {
        return WriteFailed;
      }
      hosts := hosts[host := hosts[host].(writeError := false)];
      r := ReadResponse();
    }

    /** Performs an RPC. A call that returns nil got the response to its own request, whatever
        earlier calls left unread on the connection. A call fails only if a reply was an error
        or not to be understood, or if every host is in backoff: an inactive namenode or a
        failed write leads on to the next host. The retry loop ends once the clock stays within
        the backoff and the namenode stops hanging up after a request; `patience` bounds how
        often the contrary happens. */
    method Execute(patience: nat) returns (err: Error, answered: Option<nat>)
      requires Valid() && calls < INT32_RANGE - 1
      modifies this
      ensures Valid() && calls == old(calls) + 1 && |hosts| == |old(hosts)|
      ensures err in {Nil, Failed, StillRetrying}
      ensures err == Nil ==> answered == Some(old(calls))
      ensures err != Nil ==> answered == None
      ensures err == Failed ==>
                if connected then Judged(lastReply, currentRequestID) == Other
                else released == old(released) ==> AllInBackoff(hosts, now, |hosts|)
      ensures err == StillRetrying ==> (released - old(released)) + (hangUps - old(hangUps)) == patience + 1
      ensures faults >= old(faults) && (faults == 0 && |hosts| > 0 ==> err == Nil)
    {
      hide TotalWeight, Numbered;
      var call := calls;
      IncrementWraps(serial);
      calls, currentRequestID, serial := calls + 1, Increment(currentRequestID), serial + 1;
      var left: nat := patience;
      while true
        invariant Valid() && Unsent() && calls == old(calls) + 1 && left <= patience && |hosts| == |old(hosts)|
        invariant left == patience - (released - old(released)) - (hangUps - old(hangUps))
        invariant faults >= old(faults) && released >= old(released)
        decreases left, TotalWeight(hosts, now)
      {
        err, left := ResolveConnection(left);
        if err != Nil {
          return Failed, None;
        }
        var r := Attempt(call);
        match r {
          case Response(c) =>
            return Nil, Some(c);
          case Other =>
            return Failed, None;
          case ReadEOF =>
            if left == 0 {
              return StillRetrying, None;
            }
            left := left - 1;
          case Standby =>
          case WriteFailed =>
        }
      }
    }
  }

  datatype Outcome = Outcome(err: Error, answered: Option<nat>)

  /** Ids are in the order of the calls exactly as long as both calls are on the same side of
      the wrap-around. */
  lemma WhenIdsAreOrdered(a: nat, b: nat)
    requires a < b < INT32_RANGE
    ensures Wrap32(a) < Wrap32(b) <==> b < 0x8000_0000 || 0x8000_0000 <= a
  {
    WrapIsHalves(a);
    WrapIsHalves(b);
  }

  lemma WrapIsHalves(n: nat)
    requires n < INT32_RANGE
    ensures Wrap32(n) == if n < 0x8000_0000 then n else n - INT32_RANGE
  {
  }

  /** Two requests of a connection, the first sent before the second, after `calls` calls. */
  predicate InOrder(first: Sent, second: Sent, calls: nat) {
    && first.serial < second.serial <= calls
    && (first.id < second.id <==> second.serial < 0x8000_0000 || 0x8000_0000 <= first.serial)
  }

  /** Any number of calls on one connection object. Every call that returns nil got its own
      response, and without a fault every call returns nil. On each connection later requests have later serials, and their ids go up
      exactly if the int32 does not wrap around between them. */
  method Session(hostCount: nat, kerberos: bool, now: int, callCount: nat, patience: nat)
    returns (outcomes: seq<Outcome>, conns: seq<seq<Sent>>, faults: nat)
    requires now >= BACKOFF && callCount < INT32_RANGE
    ensures |outcomes| == callCount
    ensures forall i :: 0 <= i < callCount && outcomes[i].err == Nil ==> outcomes[i].answered == Some(i)
    ensures hostCount > 0 && faults == 0 ==> forall i :: 0 <= i < callCount ==> outcomes[i].err == Nil
    ensures forall c, i, j :: 0 <= c < |conns| && 0 <= i < j < |conns[c]| ==> InOrder(conns[c][i], conns[c][j], callCount)
  {
    var nn := new NamenodeConnection(hostCount, kerberos, now);
    outcomes := [];
    while |outcomes| < callCount
      invariant |outcomes| <= callCount && nn.Valid() && fresh(nn) && nn.calls == |outcomes|
      invariant forall i :: 0 <= i < |outcomes| && outcomes[i].err == Nil ==> outcomes[i].answered == Some(i)
      invariant |nn.hosts| == hostCount
      invariant hostCount > 0 && nn.faults == 0 ==> forall i :: 0 <= i < |outcomes| ==> outcomes[i].err == Nil
    {
      var err, answered := nn.Execute(patience);
      outcomes := outcomes + [Outcome(err, answered)];
    }
    conns, faults := nn.conns, nn.faults;
    forall c, i, j | 0 <= c < |conns| && 0 <= i < j < |conns[c]|
      ensures InOrder(conns[c][i], conns[c][j], callCount)
    {
      WhenIdsAreOrdered(conns[c][i].serial, conns[c][j].serial);
    }
  }
}
