/**
 Framing of RPC messages (internal/rpc/rpc.go): length-prefixed lists of messages, each
 prefixed with a base-128 varint (Protocol Buffers Encoding, section "Base 128 Varints").
 A marshalled message is an opaque byte string.
 */
module Framing {
  import opened Common

  const MAX_VARINT_LEN32 := 5

  /** `binary.PutUvarint`: seven bits a byte, lowest first, the top bit set on all but the last. */
  function PutUvarint(x: nat): (b: Bytes)
    ensures |b| > 0
  {
    if x < 0x80 then [x as uint8] else [(x % 0x80 + 0x80) as uint8] + PutUvarint(x / 0x80)
  }

  /** A decoded value and the number of bytes it took; zero or less if there is none. */
  datatype Varint = Varint(value: nat, n: int)

  /** `binary.Uvarint`, from the byte with index i of the varint on. */
  function UvarintFrom(b: Bytes, i: nat): Varint {
    if b == [] then Varint(0, 0)
    else if b[0] < 0x80 then
      if i > 9 || (i == 9 && b[0] > 1) then Varint(0, -(i + 1)) else Varint(b[0] as nat, i + 1)
    else
      var r := UvarintFrom(b[1..], i + 1);
      if r.n <= 0 then r else Varint(b[0] as nat - 0x80 + 0x80 * r.value, r.n)
  }

  function Uvarint(b: Bytes): Varint {
    UvarintFrom(b, 0)
  }

  function Pow128(k: nat): nat {
    if k == 0 then 1 else 0x80 * Pow128(k - 1)
  }

  /** A number below 128^k takes at most k bytes. */
  lemma {:induction false} VarintLength(x: nat, k: nat)
    requires k > 0
    ensures x < Pow128(k) <==> |PutUvarint(x)| <= k
    decreases k
  {
    if x >= 0x80 {
      if k == 1 {
        assert Pow128(1) == 0x80 * Pow128(0);
      } else {
        VarintLength(x / 0x80, k - 1);
        assert x < Pow128(k) <==> x / 0x80 < Pow128(k - 1);
      }
    } else {
      Pow128Grows(k);
    }
  }

  lemma {:induction false} Pow128Grows(k: nat)
    requires k > 0
    ensures Pow128(k) >= 0x80
  {
    if k > 1 {
      Pow128Grows(k - 1);
    }
  }

  /** Decoding undoes encoding and stops where the varint does. */
  lemma {:induction false} VarintRoundTrip(x: nat, rest: Bytes, i: nat)
    requires i + |PutUvarint(x)| <= 9
    ensures UvarintFrom(PutUvarint(x) + rest, i) == Varint(x, i + |PutUvarint(x)|)
    decreases x
  {
    var b := PutUvarint(x) + rest;
    if x >= 0x80 {
      VarintRoundTrip(x / 0x80, rest, i + 1);
      assert b[1..] == PutUvarint(x / 0x80) + rest;
    }
  }

  /** Cut short and padded with zeros, a varint decodes to something that is not larger. */
  lemma {:induction false} TruncatedVarint(x: nat, k: nat, zeros: Bytes, i: nat)
    requires k < |PutUvarint(x)| && i + k <= 8
    requires zeros != [] && zeros[0] == 0
    ensures var r := UvarintFrom(PutUvarint(x)[..k] + zeros, i); r.n == i + k + 1 && r.value <= x
    decreases k
  {
    var b := PutUvarint(x)[..k] + zeros;
    if k == 0 {
      assert b == zeros;
    } else {
      TruncatedVarint(x / 0x80, k - 1, zeros, i + 1);
      assert b[1..] == PutUvarint(x / 0x80)[..k - 1] + zeros;
    }
  }

  /** The beginning of a varint alone does not decode. */
  lemma {:induction false} UnterminatedVarint(x: nat, k: nat, i: nat)
    requires k < |PutUvarint(x)|
    ensures UvarintFrom(PutUvarint(x)[..k], i).n == 0
    decreases k
  {
    if k > 0 {
      UnterminatedVarint(x / 0x80, k - 1, i + 1);
      assert PutUvarint(x)[..k][1..] == PutUvarint(x / 0x80)[..k - 1];
    }
  }

  /** The sum of the seven-bit digits, the first being the lowest. */
  function DigitSum(b: Bytes): nat {
    if b == [] then 0
    else
      var m := |b| - 1;
      DigitSum(b[..m]) + (b[m] as nat % 0x80) * Pow128(m)
  }

  lemma {:induction false} DigitSumCons(b: Bytes)
    requires b != []
    ensures DigitSum(b) == b[0] as nat % 0x80 + 0x80 * DigitSum(b[1..])
    decreases |b|
  {
    var m := |b| - 1;
    if m == 0 {
      assert b[..0] == [] && b[1..] == [];
      assert DigitSum(b) == DigitSum(b[..0]) + (b[0] as nat % 0x80) * Pow128(0);
    } else {
      DigitSumCons(b[..m]);
      assert b[..m][1..] == b[1..][..m - 1];
      var d := b[m] as nat % 0x80;
      assert DigitSum(b[1..]) == DigitSum(b[1..][..m - 1]) + d * Pow128(m - 1);
      assert d * Pow128(m) == 0x80 * (d * Pow128(m - 1));
    }
  }

  /** What decoding makes of any bytes: a varint ends at its first byte below 128. Ten bytes are
      too many unless the last is at most one, so that the value fits into 64 bits. */
  lemma {:induction false} VarintMeaning(b: Bytes, i: nat, k: nat)
    requires k < |b| && b[k] < 0x80 && forall j :: 0 <= j < k ==> b[j] >= 0x80
    ensures UvarintFrom(b, i)
            == if i + k < 9 || (i + k == 9 && b[k] <= 1) then Varint(DigitSum(b[..k + 1]), i + k + 1)
               else Varint(0, -(i + k + 1))
    decreases k
  {
    DigitSumCons(b[..k + 1]);
    if k == 0 {
      assert b[..1][1..] == [];
    } else {
      VarintMeaning(b[1..], i + 1, k - 1);
      assert b[..k + 1][1..] == b[1..][..k];
    }
  }

  /** Without such a byte there is no varint. */
  lemma {:induction false} VarintWithoutEnd(b: Bytes, i: nat)
    requires forall j :: 0 <= j < |b| ==> b[j] >= 0x80
    ensures UvarintFrom(b, i).n == 0
    decreases |b|
  {
    if b != [] {
      VarintWithoutEnd(b[1..], i + 1);
    }
  }

  /** A varint that decodes takes exactly its own bytes, whatever follows it. */
  lemma {:induction false} VarintIsPrefix(b: Bytes, i: nat, k: nat)
    requires k <= |b|
    ensures UvarintFrom(b, i).n == i + k && k > 0 ==> UvarintFrom(b[..k], i) == UvarintFrom(b, i)
    ensures UvarintFrom(b[..k], i).n == i + k && k > 0 ==> UvarintFrom(b, i) == UvarintFrom(b[..k], i)
    decreases k
  {
    if k > 0 && b[0] >= 0x80 {
      VarintIsPrefix(b[1..], i + 1, k - 1);
      assert b[..k][1..] == b[1..][..k - 1];
      VarintIsPositive(b[1..], i + 1);
      VarintIsPositive(b[1..][..k - 1], i + 1);
    }
  }

  lemma {:induction false} VarintIsPositive(b: Bytes, i: nat)
    ensures UvarintFrom(b, i).n <= 0 || i < UvarintFrom(b, i).n <= i + |b|
    decreases |b|
  {
    if b != [] {
      VarintIsPositive(b[1..], i + 1);
    }
  }

  function PrefixedMessage(payload: Bytes): Bytes {
    PutUvarint(|payload|) + payload
  }

  // --- one message, read from a stream ---

  datatype Result = Ok(payload: Bytes, consumed: nat) | Err

  function Zeros(n: nat): Bytes {
    seq(n, _ => 0)
  }

  lemma {:induction false} UvarintTakes(b: Bytes, i: nat)
    ensures UvarintFrom(b, i).n <= i + |b|
    decreases |b|
  {
    if b != [] {
      UvarintTakes(b[1..], i + 1);
    }
  }

  /** `readPrefixedMessage` on a stream whose first read delivers k bytes. Whatever the read
      left of the five-byte buffer is zero, and is taken for message bytes all the same. */
  function ReadPrefixedMessage(input: Bytes, k: nat): Result
    requires k <= MAX_VARINT_LEN32 && k <= |input|
  {
    if k == 0 then Err
    else
      var varintBytes := input[..k] + Zeros(MAX_VARINT_LEN32 - k);
      var v := Uvarint(varintBytes);
      if v.n < 1 then Err
      else
        UvarintTakes(varintBytes, 0);
        var extraLength := Min(v.value, MAX_VARINT_LEN32 - v.n);
        var more := v.value - extraLength;
        if k + more > |input| then Err
        else Ok(varintBytes[v.n..v.n + extraLength] + input[k..k + more], k + more)
  }

  /** The length prefix does not fit into the buffer, or not into the first read. */
  lemma CutPrefix(payload: Bytes, rest: Bytes, k: nat)
    requires 1 <= k <= MAX_VARINT_LEN32 && k < |PutUvarint(|payload|)|
    ensures k <= |PrefixedMessage(payload) + rest|
    ensures var r := ReadPrefixedMessage(PrefixedMessage(payload) + rest, k);
            r.Ok? ==> r.consumed < |PrefixedMessage(payload)|
  {
    var x, input := |payload|, PrefixedMessage(payload) + rest;
    assert input[..k] == PutUvarint(x)[..k];
    if k < MAX_VARINT_LEN32 {
      TruncatedVarint(x, k, Zeros(MAX_VARINT_LEN32 - k), 0);
    } else {
      assert input[..k] + Zeros(0) == PutUvarint(x)[..k];
      UnterminatedVarint(x, k, 0);
    }
  }

  /** The first read covers the length prefix. */
  lemma WholePrefix(payload: Bytes, rest: Bytes, k: nat)
    requires |PutUvarint(|payload|)| <= k <= MAX_VARINT_LEN32 && k <= |PrefixedMessage(payload) + rest|
    ensures ReadPrefixedMessage(PrefixedMessage(payload) + rest, k) == Ok(payload, |PrefixedMessage(payload)|)
            <==> k == Min(MAX_VARINT_LEN32, |PrefixedMessage(payload)|)
  {
    hide PutUvarint, UvarintFrom;
    var prefix, frame := PutUvarint(|payload|), PrefixedMessage(payload);
    var input, v := frame + rest, |PutUvarint(|payload|)|;
    var buffer := input[..k] + Zeros(MAX_VARINT_LEN32 - k);
    assert buffer == prefix + buffer[v..];
    VarintRoundTrip(|payload|, buffer[v..], 0);
    var extra := Min(|payload|, MAX_VARINT_LEN32 - v);
    var more := |payload| - extra;
    if k == Min(MAX_VARINT_LEN32, |frame|) {
      assert k == v + extra && k + more == |frame|;
      assert buffer[v..k] == payload[..extra];
      assert input[k..|frame|] == payload[extra..];
      assert payload[..extra] + payload[extra..] == payload;
    }
  }

  /** Exactly when a message written by makePrefixedMessage is recovered, with the reader left
      at the end of its frame: its length fits into five varint bytes, and the first read
      delivers five bytes, or the whole frame if that is shorter. */
  lemma PrefixedMessageRoundTrip(payload: Bytes, rest: Bytes, k: nat)
    requires 1 <= k <= MAX_VARINT_LEN32 && k <= |PrefixedMessage(payload) + rest|
    ensures ReadPrefixedMessage(PrefixedMessage(payload) + rest, k) == Ok(payload, |PrefixedMessage(payload)|)
            <==> |payload| < Pow128(MAX_VARINT_LEN32) && k == Min(MAX_VARINT_LEN32, |PrefixedMessage(payload)|)
  {
    VarintLength(|payload|, MAX_VARINT_LEN32);
    if k < |PutUvarint(|payload|)| {
      CutPrefix(payload, rest, k);
    } else {
      WholePrefix(payload, rest, k);
    }
  }

  /** The body begins with a message of this length, behind a length prefix of k bytes. */
  predicate StartsWith(body: Bytes, k: nat, msg: Bytes) {
    0 < k && k + |msg| <= |body| && Uvarint(body[..k]) == Varint(|msg|, k) && body[k..k + |msg|] == msg
  }

  /** What the reader makes of a stream whose first read delivers k bytes: the rest of its
      five-byte buffer is zero. */
  function Padded(input: Bytes, k: nat): Bytes
    requires k <= MAX_VARINT_LEN32 && k <= |input|
  {
    input[..k] + Zeros(MAX_VARINT_LEN32 - k) + input[k..]
  }

  /** For every stream and first read: a message is accepted exactly if the padded stream begins
      with it, behind its length in at most five bytes. The reader is left behind the message,
      but never before the end of the first read. With five bytes read, nothing is padded. */
  lemma AcceptedMessage(input: Bytes, k: nat, payload: Bytes, consumed: nat)
    requires k <= MAX_VARINT_LEN32 && k <= |input|
    ensures ReadPrefixedMessage(input, k) == Ok(payload, consumed)
            <==> && k > 0
                 && exists j: nat :: j <= MAX_VARINT_LEN32 && StartsWith(Padded(input, k), j, payload)
                                     && consumed == Max(k, j + |payload| - (MAX_VARINT_LEN32 - k))
    ensures k == MAX_VARINT_LEN32 ==> Padded(input, k) == input
  {
    var buffer := input[..k] + Zeros(MAX_VARINT_LEN32 - k);
    var padded, v := Padded(input, k), Uvarint(buffer);
    assert k == MAX_VARINT_LEN32 ==> padded == input;
    MessageTaken(input, k);
    forall j: nat | j <= MAX_VARINT_LEN32
      ensures StartsWith(padded, j, payload) <==> IsHead(padded, v, j, payload)
    {
      HeadOfPadded(padded, buffer, input[k..], j, payload);
    }
    UvarintTakes(buffer, 0);
    hide StartsWith, Padded, Uvarint, Zeros, ReadPrefixedMessage;
    if v.n >= 1 {
      assert StartsWith(padded, v.n, payload) <==> IsHead(padded, v, v.n, payload);
    }
  }

  /** What is read, in terms of the padded stream. */
  lemma MessageTaken(input: Bytes, k: nat)
    requires k <= MAX_VARINT_LEN32 && k <= |input|
    ensures var padded, v := Padded(input, k), Uvarint(input[..k] + Zeros(MAX_VARINT_LEN32 - k));
            ReadPrefixedMessage(input, k)
            == if k == 0 || v.n < 1 || v.n + v.value > |padded| then Err
               else Ok(padded[v.n..v.n + v.value], Max(k, v.n + v.value - (MAX_VARINT_LEN32 - k)))
  {
    var buffer := input[..k] + Zeros(MAX_VARINT_LEN32 - k);
    var padded, v := Padded(input, k), Uvarint(buffer);
    UvarintTakes(buffer, 0);
    hide Uvarint;
    if v.n >= 1 && v.n + v.value <= |padded| {
      TakenMessage(padded, buffer, input[k..], v.n, v.value);
      PrefixOfDrop(input, k, v.value - Min(v.value, MAX_VARINT_LEN32 - v.n));
    }
  }

  predicate IsHead(padded: Bytes, v: Varint, j: nat, payload: Bytes) {
    0 < j && v == Varint(|payload|, j) && j + |payload| <= |padded| && padded[j..j + |payload|] == payload
  }

  lemma HeadOfPadded(padded: Bytes, buffer: Bytes, rest: Bytes, j: nat, payload: Bytes)
    requires padded == buffer + rest && j <= |buffer|
    ensures StartsWith(padded, j, payload) <==> IsHead(padded, Uvarint(buffer), j, payload)
  {
    hide UvarintFrom;
    VarintIsPrefix(buffer, 0, j);
    assert buffer[..j] == padded[..j];
  }

  /** A message that begins in the buffer and may go on behind it. */
  lemma TakenMessage(padded: Bytes, buffer: Bytes, rest: Bytes, n: nat, length: nat)
    requires padded == buffer + rest && n <= |buffer| && n + length <= |padded|
    ensures var extra := Min(length, |buffer| - n);
            length - extra <= |rest| && buffer[n..n + extra] + rest[..length - extra] == padded[n..n + length]
  {
  }

  /** With fewer, the zeros behind them can make a message of what was cut off. */
  lemma CutMessageAccepted()
    ensures ReadPrefixedMessage([0x81], 1) == Ok([0], 1)
    ensures forall k: nat :: !StartsWith([0x81], k, [0])
  {
    var buffer := [0x81 as uint8] + Zeros(4);
    assert [0x81 as uint8][..1] + Zeros(4) == buffer;
    assert UvarintFrom(buffer[1..], 1) == Varint(0, 2);
    assert buffer[2..3] == [0];
  }

  function Max(a: int, b: int): int {
    if a < b then b else a
  }

  // --- a list of messages in one packet ---

  function Messages(msgs: seq<Bytes>): Bytes {
    if msgs == [] then [] else PrefixedMessage(msgs[0]) + Messages(msgs[1..])
  }

  lemma {:induction false} MessagesSnoc(msgs: seq<Bytes>, msg: Bytes)
    ensures Messages(msgs + [msg]) == Messages(msgs) + PrefixedMessage(msg)
    decreases |msgs|
  {
    hide PrefixedMessage;
    if msgs == [] {
      assert Messages([msg]) == PrefixedMessage(msg) + Messages([]);
    } else {
      MessagesSnoc(msgs[1..], msg);
      assert (msgs + [msg])[1..] == msgs[1..] + [msg];
    }
  }

  /** The length in front of a packet, cut to 32 bits. */
  function PacketHeader(length: nat): Bytes {
    BigEndian32((length % 0x1_0000_0000) as uint32)
  }

  method MakeRPCPacket(msgs: seq<Bytes>) returns (packet: Bytes)
    ensures packet == PacketHeader(|Messages(msgs)|) + Messages(msgs)
  {
    packet := Zeros(4);
    var length := 0;
    var i := 0;
    while i < |msgs|
      invariant i <= |msgs| && length == |Messages(msgs[..i])|
      invariant packet == Zeros(4) + Messages(msgs[..i])
    {
      var b := PrefixedMessage(msgs[i]);
      MessagesSnoc(msgs[..i], msgs[i]);
      assert msgs[..i + 1] == msgs[..i] + [msgs[i]];
      packet := packet + b;
      length := length + |b|;
      i := i + 1;
    }
    assert msgs[..i] == msgs;
    packet := BigEndian32((length % 0x1_0000_0000) as uint32) + packet[4..];
  }

  datatype Parsed = Good(msgs: seq<Bytes>) | Malformed | Crashed | Short

  function Prepend(got: seq<Bytes>, p: Parsed): Parsed {
    if p.Good? then Good(got + p.msgs) else p
  }

  /** Reads up to `slots` messages from the body of a packet. An empty body leaves the other
      slots alone. The length is checked against the body with its prefix still on, so one
      that only exceeds the rest makes the slice expression panic. */
  function ReadSlots(body: Bytes, slots: nat): Parsed
    decreases slots
  {
    if body == [] then Good([])
    else if slots == 0 then Malformed
    else
      var v := Uvarint(body);
      if v.n <= 0 || v.value > |body| then Malformed
      else
        UvarintTakes(body, 0);
        var rest := body[v.n..];
        if v.value > |rest| then Crashed
        else Prepend([rest[..v.value]], ReadSlots(rest[v.value..], slots - 1))
  }

  /** The loop of readRPCPacket. */
  method ReadMessages(body: Bytes, slots: nat) returns (p: Parsed)
    ensures p == ReadSlots(body, slots)
  {
    hide UvarintFrom;
    var packet := body;
    var got: seq<Bytes> := [];
    while |got| < slots
      invariant |got| <= slots
      invariant ReadSlots(body, slots) == Prepend(got, ReadSlots(packet, slots - |got|))
    {
      if |packet| == 0 {
        return Good(got);
      }
      var v := Uvarint(packet);
      if v.n <= 0 || v.value > |packet| {
        return Malformed;
      }
      UvarintTakes(packet, 0);
      packet := packet[v.n..];
      if v.value > |packet| {
        return Crashed;
      }
      ghost var before := got;
      got := got + [packet[..v.value]];
      packet := packet[v.value..];
      PrependTwice(before, got[|before|], ReadSlots(packet, slots - |got|));
    }
    p := if |packet| > 0 then Malformed else Good(got);
  }

  method ReadRPCPacket(input: Bytes, slots: nat) returns (p: Parsed, consumed: nat)
    ensures |input| < 4 ==> p == Short
    ensures |input| >= 4 ==>
              var length := FromBigEndian32(input[..4]) as nat;
              if |input| < 4 + length then p == Short
              else p == ReadSlots(input[4..4 + length], slots) && consumed == 4 + length
  {
    if |input| < 4 {
      return Short, |input|;
    }
    var packetLength := FromBigEndian32(input[..4]) as nat;
    if |input| < 4 + packetLength {
      return Short, |input|;
    }
    consumed := 4 + packetLength;
    p := ReadMessages(input[4..consumed], slots);
  }

  lemma PrependTwice(got: seq<Bytes>, msg: Bytes, p: Parsed)
    ensures Prepend(got, Prepend([msg], p)) == Prepend(got + [msg], p)
  {
  }

  // --- what the answers of the reader mean, for every body ---

  /** The body is these messages, each behind its length, and then `tail`. */
  ghost predicate FramedThen(body: Bytes, msgs: seq<Bytes>, tail: Bytes)
    decreases |msgs|
  {
    if msgs == [] then body == tail
    else exists k: nat :: StartsWith(body, k, msgs[0]) && FramedThen(body[k + |msgs[0]|..], msgs[1..], tail)
  }

  /** There is no length in front, or one beyond all that is there. */
  predicate BadLength(tail: Bytes) {
    tail != [] && var v := Uvarint(tail); v.n <= 0 || v.value > |tail|
  }

  /** The length in front is more than follows it, but not more than there is with it. */
  predicate Overruns(tail: Bytes) {
    var v := Uvarint(tail); v.n > 0 && |tail| - v.n < v.value <= |tail|
  }

  /** A message in front is just what the reader takes off first. */
  lemma FirstMessage(body: Bytes, k: nat, msg: Bytes)
    requires k <= |body|
    ensures StartsWith(body, k, msg)
            <==> 0 < k && Uvarint(body) == Varint(|msg|, k) && k + |msg| <= |body| && body[k..k + |msg|] == msg
  {
    VarintIsPrefix(body, 0, k);
  }

  lemma ReadFirst(body: Bytes, k: nat, msg: Bytes, slots: nat)
    requires StartsWith(body, k, msg) && slots > 0
    ensures ReadSlots(body, slots) == Prepend([msg], ReadSlots(body[k + |msg|..], slots - 1))
  {
    FirstMessage(body, k, msg);
    hide UvarintFrom;
    var rest := body[k..];
    assert rest[..|msg|] == msg && rest[|msg|..] == body[k + |msg|..];
  }

  /** Messages in front are read one by one. */
  lemma {:induction false} ReadInFront(body: Bytes, msgs: seq<Bytes>, tail: Bytes, slots: nat)
    requires FramedThen(body, msgs, tail) && |msgs| <= slots
    ensures ReadSlots(body, slots) == Prepend(msgs, ReadSlots(tail, slots - |msgs|))
    decreases |msgs|
  {
    hide ReadSlots, UvarintFrom;
    if msgs == [] {
      var p := ReadSlots(body, slots);
      assert p.Good? ==> [] + p.msgs == p.msgs;
    } else {
      var k: nat :| StartsWith(body, k, msgs[0]) && FramedThen(body[k + |msgs[0]|..], msgs[1..], tail);
      ReadFirst(body, k, msgs[0], slots);
      ReadInFront(body[k + |msgs[0]|..], msgs[1..], tail, slots - 1);
      var p := ReadSlots(tail, slots - |msgs|);
      assert p.Good? ==> [msgs[0]] + (msgs[1..] + p.msgs) == msgs + p.msgs;
    }
  }

  /** How far the reader gets: to the end, to its last slot, or to a length it cannot use. */
  lemma {:induction false} ReadsUntil(body: Bytes, slots: nat) returns (msgs: seq<Bytes>, tail: Bytes)
    ensures FramedThen(body, msgs, tail) && |msgs| <= slots
    ensures tail == [] || |msgs| == slots || BadLength(tail) || Overruns(tail)
    decreases slots
  {
    hide UvarintFrom;
    if body == [] || slots == 0 || BadLength(body) || Overruns(body) {
      msgs, tail := [], body;
    } else {
      var v := Uvarint(body);
      UvarintTakes(body, 0);
      var msg := body[v.n..v.n + v.value];
      FirstMessage(body, v.n, msg);
      assert StartsWith(body, v.n, msg);
      var rest := body[v.n + v.value..];
      msgs, tail := ReadsUntil(rest, slots - 1);
      var all := [msg] + msgs;
      assert all[1..] == msgs && all[0] == msg;
      assert StartsWith(body, v.n, all[0]) && body[v.n + |all[0]|..] == rest;
      msgs := all;
    }
  }

  /** What the reader says where it stops. */
  lemma AtTheEnd(tail: Bytes, slots: nat)
    ensures tail == [] ==> ReadSlots(tail, slots) == Good([])
    ensures tail != [] && slots == 0 ==> ReadSlots(tail, slots) == Malformed
    ensures BadLength(tail) && slots > 0 ==> ReadSlots(tail, slots) == Malformed
    ensures Overruns(tail) && slots > 0 ==> ReadSlots(tail, slots) == Crashed
  {
    if tail != [] {
      UvarintTakes(tail, 0);
    }
  }

  /** A body is accepted, as these messages, exactly if it is these messages, each behind its
      length, and there are slots for them. */
  lemma AcceptedIsFramed(body: Bytes, slots: nat, msgs: seq<Bytes>)
    ensures ReadSlots(body, slots) == Good(msgs) <==> |msgs| <= slots && FramedThen(body, msgs, [])
  {
    hide ReadSlots, FramedThen;
    if |msgs| <= slots && FramedThen(body, msgs, []) {
      ReadInFront(body, msgs, [], slots);
      AtTheEnd([], slots - |msgs|);
      assert msgs + [] == msgs;
    }
    var got, tail := ReadsUntil(body, slots);
    ReadInFront(body, got, tail, slots);
    AtTheEnd(tail, slots - |got|);
    assert got + [] == got;
  }

  /** The reader panics exactly if, with a slot left, it comes to a length that overruns. */
  lemma WhenReaderCrashes(body: Bytes, slots: nat)
    ensures ReadSlots(body, slots) == Crashed
            <==> exists msgs, tail :: FramedThen(body, msgs, tail) && |msgs| < slots && Overruns(tail)
  {
    hide ReadSlots, FramedThen, Overruns, BadLength;
    forall msgs, tail | FramedThen(body, msgs, tail) && |msgs| < slots && Overruns(tail)
      ensures ReadSlots(body, slots) == Crashed
    {
      ReadInFront(body, msgs, tail, slots);
      AtTheEnd(tail, slots - |msgs|);
    }
    var got, tail := ReadsUntil(body, slots);
    ReadInFront(body, got, tail, slots);
    AtTheEnd(tail, slots - |got|);
  }

  /** It reports a malformed packet exactly if it runs out of slots before the body ends, or
      comes to a length that is missing or beyond the whole rest. */
  lemma WhenMalformed(body: Bytes, slots: nat)
    ensures ReadSlots(body, slots) == Malformed
            <==> exists msgs, tail :: FramedThen(body, msgs, tail)
                                      && if |msgs| < slots then BadLength(tail) else |msgs| == slots && tail != []
  {
    hide ReadSlots, FramedThen, Overruns, BadLength;
    forall msgs, tail | FramedThen(body, msgs, tail)
                        && if |msgs| < slots then BadLength(tail) else |msgs| == slots && tail != []
      ensures ReadSlots(body, slots) == Malformed
    {
      ReadInFront(body, msgs, tail, slots);
      AtTheEnd(tail, slots - |msgs|);
    }
    var got, tail := ReadsUntil(body, slots);
    ReadInFront(body, got, tail, slots);
    AtTheEnd(tail, slots - |got|);
  }

  /** Reading the body of a packet undoes writing it, given enough slots. */
  lemma {:induction false} SlotsRoundTrip(msgs: seq<Bytes>, slots: nat)
    requires forall i :: 0 <= i < |msgs| ==> |msgs[i]| < Pow128(9)
    ensures ReadSlots(Messages(msgs), slots) == if |msgs| <= slots then Good(msgs) else Malformed
    decreases slots
  {
    hide PutUvarint, UvarintFrom, Pow128;
    if msgs != [] && slots > 0 {
      var body, msg := Messages(msgs), msgs[0];
      VarintLength(|msg|, 9);
      assert body == PutUvarint(|msg|) + (msg + Messages(msgs[1..]));
      VarintRoundTrip(|msg|, msg + Messages(msgs[1..]), 0);
      var rest := body[|PutUvarint(|msg|)|..];
      assert rest == msg + Messages(msgs[1..]);
      assert rest[..|msg|] == msg && rest[|msg|..] == Messages(msgs[1..]);
      SlotsRoundTrip(msgs[1..], slots - 1);
      assert [msg] + msgs[1..] == msgs;
    }
  }

  /** What becomes of a packet written by makeRPCPacket: the reader finds all its messages and
      stops at its end exactly if the total length fits into 32 bits and there are enough
      slots. */
  method SendAndReceive(msgs: seq<Bytes>, rest: Bytes, slots: nat) returns (p: Parsed, exact: bool)
    requires forall i :: 0 <= i < |msgs| ==> |msgs[i]| < Pow128(9)
    ensures p == Good(msgs) && exact <==> |Messages(msgs)| < 0x1_0000_0000 && |msgs| <= slots
    ensures |Messages(msgs)| < 0x1_0000_0000 ==> exact
  {
    hide Messages, ReadSlots, BigEndian32, FromBigEndian32, Pow128;
    var packet := MakeRPCPacket(msgs);
    var consumed;
    p, consumed := ReadRPCPacket(packet + rest, slots);
    exact := p != Short && consumed == |packet|;
    var total := |Messages(msgs)|;
    BigEndian32RoundTrip((total % 0x1_0000_0000) as uint32);
    assert (packet + rest)[..4] == PacketHeader(total);
    if total < 0x1_0000_0000 {
      assert (packet + rest)[4..4 + total] == Messages(msgs);
      SlotsRoundTrip(msgs, slots);
    }
  }
}
