/**
 The byte stream between a write stream and its datanode (`writePacket` and
 `writeHeartBeatPacket` in internal/rpc/block_write_stream.go). The marshalled
 header is one token; everything after it is plain octets, so a reader has to rely
 on the lengths in the header to find the next one.
 */
module Wire {
  import opened Common
  import opened Packets
  import opened Acks

  datatype Token =
    | Header(total: nat, offset: nat, seqno: int, last: bool, dataLen: nat)
    | Octet(value: uint8)

  function HeartbeatPacket(): Packet {
    Packet(HEARTBEAT_SEQNO, 0, false, [], [])
  }

  function HeaderOf(p: Packet): Token {
    Header(|p.data| + |p.checksums| + 4, p.offset, p.seqno, p.last, |p.data|)
  }

  function Octets(b: Bytes): seq<Token> {
    seq(|b|, i requires 0 <= i < |b| => Octet(b[i]))
  }

  /** What the k-th of the three connection writes of `writePacket` puts on the wire. */
  function Segment(p: Packet, k: nat): seq<Token>
    requires k < 3
  {
    if k == 0 then [HeaderOf(p)] else if k == 1 then Octets(p.checksums) else Octets(p.data)
  }

  /** The first k segments of a packet. */
  function Partial(p: Packet, k: nat): seq<Token>
    requires k <= 3
  {
    if k == 0 then [] else Partial(p, k - 1) + Segment(p, k - 1)
  }

  function Encode(p: Packet): seq<Token> {
    [HeaderOf(p)] + Octets(p.checksums) + Octets(p.data)
  }

  function EncodeAll(ps: seq<Packet>): seq<Token> {
    if ps == [] then [] else EncodeAll(ps[..|ps| - 1]) + Encode(ps[|ps| - 1])
  }

  lemma EncodeAllSnoc(ps: seq<Packet>, p: Packet)
    ensures EncodeAll(ps + [p]) == EncodeAll(ps) + Encode(p)
  {
    assert (ps + [p])[..|ps|] == ps;
  }

  lemma {:induction false} EncodeAllCons(p: Packet, ps: seq<Packet>)
    ensures EncodeAll([p] + ps) == Encode(p) + EncodeAll(ps)
    decreases |ps|
  {
    hide Encode;
    if ps == [] {
      EncodeAllSnoc([], p);
      assert [p] + ps == [] + [p];
      assert EncodeAll(ps) == [];
    } else {
      var init, last := ps[..|ps| - 1], ps[|ps| - 1];
      EncodeAllCons(p, init);
      EncodeAllSnoc([p] + init, last);
      assert [p] + ps == [p] + init + [last];
    }
  }

  lemma PartialComplete(p: Packet)
    ensures Partial(p, 3) == Encode(p)
  {
    assert Partial(p, 1) == [] + Segment(p, 0);
    assert Partial(p, 2) == Partial(p, 1) + Segment(p, 1);
    assert Partial(p, 3) == Partial(p, 2) + Segment(p, 2);
  }

  predicate AllOctets(ts: seq<Token>) {
    forall i :: 0 <= i < |ts| ==> ts[i].Octet?
  }

  function Values(ts: seq<Token>): Bytes
    requires AllOctets(ts)
  {
    seq(|ts|, i requires 0 <= i < |ts| => ts[i].value)
  }

  datatype Parsed = Parsed(frames: seq<Packet>, rest: seq<Token>)

  /** The datanode's reading of the wire, driven by the lengths in each header. It
      stops at the first frame that is not complete or not well delimited. */
  function Parse(ts: seq<Token>): Parsed
    decreases |ts|
  {
    if ts == [] || !ts[0].Header? || ts[0].total < ts[0].dataLen + 4 then Parsed([], ts)
    else
      var h := ts[0];
      var sums := h.total - 4 - h.dataLen;
      var end := 1 + sums + h.dataLen;
      if |ts| < end || !AllOctets(ts[1..1 + sums]) || !AllOctets(ts[1 + sums..end]) then Parsed([], ts)
      else
        var p := Packet(h.seqno, h.offset, h.last, Values(ts[1..1 + sums]), Values(ts[1 + sums..end]));
        var tail := Parse(ts[end..]);
        Parsed([p] + tail.frames, tail.rest)
  }

  /** A frame that is still being written: a proper prefix of a packet, cut between
      two of the three connection writes or inside one of them. */
  ghost predicate ProperPrefix(ts: seq<Token>, p: Packet) {
    ts < Encode(p)
  }

  lemma ParsePrefix(p: Packet, ts: seq<Token>)
    requires ProperPrefix(ts, p)
    ensures Parse(ts) == Parsed([], ts)
  {
    if ts != [] {
      assert ts[0] == Encode(p)[0] == HeaderOf(p);
    }
  }

  lemma ParseEncode(p: Packet, ts: seq<Token>)
    ensures Parse(Encode(p) + ts) == Parsed([p] + Parse(ts).frames, Parse(ts).rest)
  {
    var all := Encode(p) + ts;
    var h := HeaderOf(p);
    var c := |p.checksums|;
    var end := 1 + c + |p.data|;
    assert all[0] == h;
    assert all[1..1 + c] == Octets(p.checksums);
    assert all[1 + c..end] == Octets(p.data);
    assert all[end..] == ts;
    assert Values(all[1..1 + c]) == p.checksums;
    assert Values(all[1 + c..end]) == p.data;
  }

  /** Whatever complete frames precede it, a partial frame never disturbs them: the
      datanode recovers exactly the packets that were completely written. */
  lemma {:induction false} ParseRoundTrip(ps: seq<Packet>, partial: seq<Token>, p: Packet)
    requires ProperPrefix(partial, p)
    ensures Parse(EncodeAll(ps) + partial) == Parsed(ps, partial)
    decreases |ps|
  {
    if ps == [] {
      assert EncodeAll(ps) + partial == partial;
      ParsePrefix(p, partial);
    } else {
      var rest := ps[1..];
      assert ps == [ps[0]] + rest;
      EncodeAllCons(ps[0], rest);
      assert EncodeAll(ps) + partial == Encode(ps[0]) + (EncodeAll(rest) + partial);
      ParseEncode(ps[0], EncodeAll(rest) + partial);
      ParseRoundTrip(rest, partial, p);
    }
  }

  /** The frames that are not heartbeats. */
  function DataFrames(ps: seq<Packet>): seq<Packet> {
    if ps == [] then []
    else
      var init := DataFrames(ps[..|ps| - 1]);
      var p := ps[|ps| - 1];
      if p.seqno == HEARTBEAT_SEQNO then init else init + [p]
  }

  lemma DataFramesSnoc(ps: seq<Packet>, p: Packet)
    ensures DataFrames(ps + [p]) == if p.seqno == HEARTBEAT_SEQNO then DataFrames(ps) else DataFrames(ps) + [p]
  {
    assert (ps + [p])[..|ps|] == ps;
  }
}
