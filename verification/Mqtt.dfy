/** The MQTT client's PUBLISH packets: printer, length coding, packet reader and subscription parser. */
module Mqtt {

  type Octets = seq<nat>

  const BUFFER_SIZE: nat := 150
  const DATA_LIMIT: nat := 100
  const PUBLISH: nat := 3
  const PUBACK: nat := 4

  // ---------------------------------------------------------------- remaining length

  function EncodeLength(n: nat): (r: Octets)
    ensures r != []
  {
    if n / 128 > 0 then [n % 128 + 128] + EncodeLength(n / 128) else [n % 128]
  }

  datatype Length = Malformed | Short | Length(value: nat, rest: Octets)

  function Scaled(octet: nat, multiplier: nat): nat { octet % 128 * multiplier }

  /** The decoding loop, with `value` decoded so far and the next octet to count `multiplier` times. */
  function DecodeLength(s: Octets, multiplier: nat, value: nat): (r: Length)
    ensures r.Length? ==> |r.rest| < |s|
  {
    if s == [] then Short else
    var value' := value + Scaled(s[0], multiplier);
    if multiplier * 128 > 128 * 128 * 128 then Malformed
    else if s[0] >= 128 then DecodeLength(s[1..], multiplier * 128, value')
    else Length(value', s[1..])
  }

  lemma DecodeNothing(multiplier: nat, value: nat)
    ensures DecodeLength([], multiplier, value) == Short
  {
  }

  lemma DecodeStep(s: Octets, multiplier: nat, value: nat)
    requires s != []
    ensures DecodeLength(s, multiplier, value) ==
      if multiplier * 128 > 2097152 then Malformed
      else if s[0] >= 128 then DecodeLength(s[1..], multiplier * 128, value + Scaled(s[0], multiplier))
      else Length(value + Scaled(s[0], multiplier), s[1..])
  {
  }

  lemma Continues(b: nat, more: Octets, multiplier: nat, value: nat)
    requires 128 <= b < 256
    ensures DecodeLength([b] + more, multiplier, value) ==
      if multiplier > 16384 then Malformed else DecodeLength(more, multiplier * 128, value + (b - 128) * multiplier)
  {
    assert ([b] + more)[1..] == more;
    assert b % 128 == b - 128;
  }

  lemma Ends(b: nat, tail: Octets, multiplier: nat, value: nat)
    requires b < 128
    ensures DecodeLength([b] + tail, multiplier, value) ==
      if multiplier > 16384 then Malformed else Length(value + b * multiplier, tail)
  {
    assert ([b] + tail)[1..] == tail;
  }

  lemma TooLong(n: nat, tail: Octets, value: nat)
    ensures DecodeLength(EncodeLength(n) + tail, 2097152, value) == Malformed
  {
  }

  lemma LongCode(n: nat)
    requires n >= 128
    ensures EncodeLength(n) == [n % 128 + 128] + EncodeLength(n / 128)
  {
  }

  lemma Regroup3(b: nat, code: Octets, tail: Octets)
    ensures ([b] + code) + tail == [b] + (code + tail)
  {
  }

  lemma Splits(n: nat, tail: Octets)
    ensures n < 128 ==> EncodeLength(n) == [n]
    ensures n >= 128 ==> EncodeLength(n) + tail == [n % 128 + 128] + (EncodeLength(n / 128) + tail)
  {
    if n >= 128 {
      LongCode(n);
      Regroup3(n % 128 + 128, EncodeLength(n / 128), tail);
    }
  }

  lemma LastOctet(n: nat, tail: Octets, value: nat)
    ensures DecodeLength(EncodeLength(n) + tail, 16384, value) ==
      if n < 128 then Length(value + n * 16384, tail) else Malformed
  {
    Splits(n, tail);
    if n < 128 {
      Ends(n, tail, 16384, value);
    } else {
      Continues(n % 128 + 128, EncodeLength(n / 128) + tail, 16384, value);
      TooLong(n / 128, tail, value + n % 128 * 16384);
    }
    hide DecodeLength, EncodeLength;
  }

  lemma MiddleOctet(n: nat, tail: Octets, value: nat)
    ensures DecodeLength(EncodeLength(n) + tail, 128, value) ==
      if n < 16384 then Length(value + n * 128, tail) else Malformed
  {
    Splits(n, tail);
    if n < 128 {
      Ends(n, tail, 128, value);
    } else {
      Continues(n % 128 + 128, EncodeLength(n / 128) + tail, 128, value);
      LastOctet(n / 128, tail, value + n % 128 * 128);
    }
    hide DecodeLength, EncodeLength;
  }

  /** The reader gets back every length its three octets can hold, and refuses the longer ones. */
  lemma LengthRoundTrip(n: nat, tail: Octets)
    ensures DecodeLength(EncodeLength(n) + tail, 1, 0) == if n < 2097152 then Length(n, tail) else Malformed
  {
    Splits(n, tail);
    if n < 128 {
      Ends(n, tail, 1, 0);
    } else {
      Continues(n % 128 + 128, EncodeLength(n / 128) + tail, 1, 0);
      MiddleOctet(n / 128, tail, n % 128);
    }
    hide DecodeLength, EncodeLength;
  }

  // ---------------------------------------------------------------- packets

  function Word(n: nat): (r: Octets)
    ensures |r| == 2
  {
    [n / 256 % 256, n % 256]
  }

  /** The octets after the length: topic with its length, packet id if there is one, payload. */
  function Body(topic: Octets, data: Octets, qos: nat, id: nat): (r: Octets)
    ensures |r| == 2 + |topic| + (if qos > 0 then 2 else 0) + |data|
  {
    Word(|topic|) + topic + (if qos > 0 then Word(id) else []) + data
  }

  /** `publishPacket`; the length is 16 bits wide. */
  function PublishPacket(topic: Octets, data: Octets, qos: nat, id: nat): (r: Octets)
    requires qos < 8
    ensures r != []
  {
    [PUBLISH * 16 + qos * 2] + EncodeLength(|Body(topic, data, qos, id)| % 65536) + Body(topic, data, qos, id)
  }

  function PubackPacket(id: nat): Octets { [PUBACK * 16, 2] + Word(id) }

  /** What is read: nothing, a packet, or more than the buffer holds. */
  datatype Reading = None | Packet(packet: Octets, rest: Octets) | Overrun

  /** How much of the remaining octets is read after a header of `header` octets. */
  function ReadSize(value: nat, header: nat): nat {
    if value <= BUFFER_SIZE - header - 1 then value
    else if header + 1 <= BUFFER_SIZE then BUFFER_SIZE - header - 1
    else 0
  }

  lemma SizeFits(value: nat, header: nat)
    requires header < BUFFER_SIZE
    ensures header + ReadSize(value, header) < BUFFER_SIZE
  {
  }

  /** How many of `n` octets `readPacket` takes. It stops when it has taken the `n`-th one: never, if `n` is 0. */
  function TakeCount(n: nat, arrived: nat): nat { if 0 < n <= arrived then n else arrived }

  function TakeBody(header: Octets, value: nat, rest: Octets): Reading {
    var got := TakeCount(ReadSize(value, |header|), |rest|);
    if |header| + got > BUFFER_SIZE then Overrun else Packet(header + rest[..got], rest[got..])
  }

  /** `readFullPacket` on the octets that arrive before the timeout. */
  function ReadFullPacket(input: Octets): Reading {
    if input == [] then None else
    match DecodeLength(input[1..], 1, 0)
    case Malformed => None
    case Short => None
    case Length(value, rest) =>
      TakeBody(input[..|input| - |rest|], value, rest)
  }

  lemma {:induction false} EncodedSize(n: nat)
    ensures n < 128 ==> |EncodeLength(n)| == 1
    ensures n < 16384 ==> |EncodeLength(n)| <= 2
  {
    if n >= 128 { EncodedSize(n / 128); }
  }

  lemma TakesBody(header: Octets, body: Octets, tail: Octets)
    requires |header| <= 3 && 0 < |body| <= 146
    ensures TakeBody(header, |body|, body + tail) == Packet(header + body, tail)
  {
    assert (body + tail)[..|body|] == body && (body + tail)[|body|..] == tail;
  }

  /** Without a body, everything that has arrived is taken for it. */
  lemma TakesTail(header: Octets, tail: Octets)
    ensures TakeBody(header, 0, tail) == if |header| + |tail| > BUFFER_SIZE then Overrun else Packet(header + tail, [])
  {
    assert tail[..|tail|] == tail && tail[|tail|..] == [];
  }

  lemma TakesPart(header: Octets, body: Octets, tail: Octets)
    requires 3 <= |header| <= 4 && |body| > 146
    ensures TakeBody(header, |body|, body + tail) != Packet(header + body, tail)
  {
  }

  lemma ReadsFrom(input: Octets, code: Octets, value: nat, rest: Octets)
    requires input != [] && input[1..] == code + rest && DecodeLength(code + rest, 1, 0) == Length(value, rest)
    ensures ReadFullPacket(input) == TakeBody([input[0]] + code, value, rest)
  {
    hide DecodeLength, TakeBody;
    assert input == [input[0]] + code + rest;
    assert input[..|input| - |rest|] == [input[0]] + code;
  }

  lemma Regroup(first: nat, code: Octets, body: Octets, tail: Octets)
    ensures ([first] + code + body + tail)[1..] == code + (body + tail)
  {
  }

  lemma ReadsCoded(first: nat, code: Octets, body: Octets, tail: Octets, input: Octets)
    requires DecodeLength(code + (body + tail), 1, 0) == Length(|body|, body + tail)
    requires input != [] && input[0] == first && input[1..] == code + (body + tail)
    ensures ReadFullPacket(input) == TakeBody([first] + code, |body|, body + tail)
  {
    hide DecodeLength, ReadFullPacket, TakeBody;
    ReadsFrom(input, code, |body|, body + tail);
  }

  /** A packet is read by its header. */
  lemma ReadsHeader(first: nat, body: Octets, tail: Octets)
    ensures
      var r := ReadFullPacket([first] + EncodeLength(|body|) + body + tail);
      r == if |body| < 2097152 then TakeBody([first] + EncodeLength(|body|), |body|, body + tail) else None
  {
    var input := [first] + EncodeLength(|body|) + body + tail;
    LengthRoundTrip(|body|, body + tail);
    Regroup(first, EncodeLength(|body|), body, tail);
    if |body| < 2097152 {
      hide *;
      ReadsCoded(first, EncodeLength(|body|), body, tail, input);
    }
    hide DecodeLength, EncodeLength;
  }

  /** A packet that has a body and fits the buffer is read whole, and no further. */
  lemma ReadsPacket(first: nat, body: Octets, tail: Octets)
    requires 0 < |body| <= 146
    ensures ReadFullPacket([first] + EncodeLength(|body|) + body + tail) ==
      Packet([first] + EncodeLength(|body|) + body, tail)
  {
    ReadsHeader(first, body, tail);
    EncodedSize(|body|);
    hide ReadFullPacket, TakeBody, EncodeLength;
    TakesBody([first] + EncodeLength(|body|), body, tail);
  }

  lemma {:induction false} EncodedAtMost(n: nat)
    requires 128 <= n < 2097152
    ensures 2 <= |EncodeLength(n)| <= 3
  {
    EncodedSize(n / 128);
  }

  /** The others are not, but for a packet without a body that nothing follows. */
  lemma ReadsPacketIff(first: nat, body: Octets, tail: Octets)
    ensures
      var packet := [first] + EncodeLength(|body|) + body;
      ReadFullPacket(packet + tail) == Packet(packet, tail) <==> 0 < |body| <= 146 || (body == [] && tail == [])
  {
    ReadsHeader(first, body, tail);
    hide ReadFullPacket;
    var header := [first] + EncodeLength(|body|);
    if body == [] {
      TakesTail(header, tail);
      assert [] + tail == tail;
    } else if |body| <= 146 {
      ReadsPacket(first, body, tail);
    } else if |body| < 2097152 {
      EncodedAtMost(|body|);
      TakesPart(header, body, tail);
    }
    hide EncodeLength, TakeBody;
  }

  /** Of a packet too long for the buffer, the first 149 octets are read; the others are taken for the next packet. */
  lemma LongPacketCut(first: nat, body: Octets, tail: Octets)
    requires 146 < |body| < 2097152
    ensures
      var packet := [first] + EncodeLength(|body|) + body;
      |packet| > 149 && ReadFullPacket(packet + tail) == Packet(packet[..149], packet[149..] + tail)
  {
    var header := [first] + EncodeLength(|body|);
    var packet, n := header + body, 149 - |header|;
    EncodedAtMost(|body|);
    ReadsHeader(first, body, tail);
    hide ReadFullPacket, EncodeLength;
    assert (body + tail)[..n] == body[..n] && (body + tail)[n..] == body[n..] + tail;
    assert packet[..149] == header + body[..n] && packet[149..] == body[n..];
  }

  /** Of a packet that arrives in part before the timeout, this part is taken for the packet. */
  lemma PartialRead(first: nat, body: Octets, k: nat)
    requires k < |body| <= 146
    ensures
      var header := [first] + EncodeLength(|body|);
      ReadFullPacket(header + body[..k]) == Packet(header + body[..k], [])
  {
    var code, part := EncodeLength(|body|), body[..k];
    LengthRoundTrip(|body|, part);
    EncodedSize(|body|);
    var input := [first] + code + part;
    BehindFirst(first, code, part);
    hide ReadFullPacket, DecodeLength, EncodeLength, TakeBody;
    ReadsFrom(input, code, |body|, part);
    TakesRest([first] + code, |body|, part);
  }

  lemma BehindFirst(first: nat, code: Octets, part: Octets)
    ensures ([first] + code + part)[0] == first && ([first] + code + part)[1..] == code + part
  {
  }

  lemma TakesRest(header: Octets, n: nat, part: Octets)
    requires |header| <= 3 && |part| < n <= 146
    ensures TakeBody(header, n, part) == Packet(header + part, [])
  {
    assert part[..|part|] == part && part[|part|..] == [];
  }

  const PING_RESPONSE: Octets := [208, 0]

  /** The answer to a ping takes the packets behind it along. */
  lemma PingSwallows(tail: Octets)
    ensures ReadFullPacket(PING_RESPONSE + tail) ==
      if |tail| > BUFFER_SIZE - 2 then Overrun else Packet(PING_RESPONSE + tail, [])
  {
    assert EncodeLength(0) == [0];
    assert PING_RESPONSE == [208] + EncodeLength(0) + [];
    ReadsHeader(208, [], tail);
    TakesTail(PING_RESPONSE, tail);
    assert [] + tail == tail;
    hide ReadFullPacket, TakeBody;
  }

  function ReadAll(input: Octets, count: nat): (r: seq<Octets>)
    decreases count
  {
    if count == 0 then [] else
    match ReadFullPacket(input)
    case Packet(p, rest) => [p] + ReadAll(rest, count - 1)
    case _ => []
  }

  datatype Message = Message(topic: Octets, data: Octets, qos: nat, id: nat)
  {
    predicate Fits() { qos < 8 && |Body(topic, data, qos, id)| <= 146 }

    function Printed(): Octets
      requires Fits()
    {
      PublishPacket(topic, data, qos, id)
    }
  }

  function PrintAll(ms: seq<Message>): Octets
    requires forall i :: 0 <= i < |ms| ==> ms[i].Fits()
  {
    if ms == [] then [] else ms[0].Printed() + PrintAll(ms[1..])
  }

  /** A stream of packets is taken apart into just these packets. */
  lemma {:induction false} StreamRoundTrip(ms: seq<Message>)
    requires forall i :: 0 <= i < |ms| ==> ms[i].Fits()
    ensures
      var r := ReadAll(PrintAll(ms), |ms|);
      |r| == |ms| && forall i :: 0 <= i < |ms| ==> r[i] == ms[i].Printed()
    decreases ms
  {
    hide ReadFullPacket, Message.Printed, Message.Fits;
    if ms != [] {
      ReadsMessage(ms[0], PrintAll(ms[1..]));
      StreamRoundTrip(ms[1..]);
    }
  }

  lemma ReadsMessage(m: Message, tail: Octets)
    requires m.Fits()
    ensures ReadFullPacket(m.Printed() + tail) == Packet(m.Printed(), tail)
  {
    ReadsPacket(PUBLISH * 16 + m.qos * 2, Body(m.topic, m.data, m.qos, m.id), tail);
    PrintedIs(m);
    hide *;
  }

  lemma PrintedIs(m: Message)
    requires m.Fits()
    ensures |Body(m.topic, m.data, m.qos, m.id)| <= 146
    ensures
      var body := Body(m.topic, m.data, m.qos, m.id);
      m.Printed() == [PUBLISH * 16 + m.qos * 2] + EncodeLength(|body|) + body
  {
    hide EncodeLength, Body;
  }

  // ---------------------------------------------------------------- subscriptions

  function Lower(b: nat): nat { if 65 <= b <= 90 then b + 32 else b }

  /** Equal but for the case of letters. */
  predicate SameTopic(a: Octets, b: Octets) { |a| == |b| && forall i :: 0 <= i < |a| ==> Lower(a[i]) == Lower(b[i]) }

  function FindTopic(topics: seq<Octets>, topic: Octets): (k: nat)
    ensures k <= |topics| && (k < |topics| ==> SameTopic(topics[k], topic))
    ensures forall i :: 0 <= i < k ==> !SameTopic(topics[i], topic)
  {
    if topics == [] then 0 else if SameTopic(topics[0], topic) then 0 else 1 + FindTopic(topics[1..], topic)
  }

  /** What becomes of a packet: no subscription has its topic, one stores its data and a reply is sent, or octets
      outside the buffer are looked at. */
  datatype Delivery = NoMatch | Delivered(index: nat, data: Octets, reply: Octets) | Outside

  predicate QosOne(first: nat) { first / 2 % 4 == 1 }

  /** How many octets a subscription keeps. */
  function StoredLength(n: nat): nat { if n > DATA_LIMIT then DATA_LIMIT - 1 else n }

  function Stored(data: Octets): Octets { data[..StoredLength(|data|)] }

  /** A packet that is as long as its topic says. */
  predicate Whole(packet: Octets) {
    |packet| >= 4 && |packet| >= 4 + packet[3] + if QosOne(packet[0]) then 2 else 0
  }

  function TopicOf(packet: Octets): Octets
    requires Whole(packet)
  {
    packet[4..4 + packet[3]]
  }

  function PayloadOf(packet: Octets): Octets
    requires Whole(packet)
  {
    packet[4 + packet[3] + (if QosOne(packet[0]) then 2 else 0)..]
  }

  function IdOf(packet: Octets): nat
    requires Whole(packet) && QosOne(packet[0])
  {
    packet[4 + packet[3]] * 256 + packet[5 + packet[3]]
  }

  /** What `readSubscription` makes of such a packet: the subscription found, what it stores, and the
      acknowledgement sent. */
  function Deliver(packet: Octets, topics: seq<Octets>): Delivery
    requires Whole(packet)
  {
    var k := FindTopic(topics, TopicOf(packet));
    if k == |topics| then NoMatch
    else Delivered(k, Stored(PayloadOf(packet)), if QosOne(packet[0]) then PubackPacket(IdOf(packet)) else [])
  }

  /** Where the payload begins, by the topic's length at its place in the buffer. */
  function PayloadAt(buffer: Octets): nat
    requires |buffer| == BUFFER_SIZE
  {
    4 + buffer[3] + if QosOne(buffer[0]) then 2 else 0
  }

  /** `readSubscription` on the buffer, of which a packet has the first `len` octets and earlier ones the others. The
      length of the payload is computed in 16 bits. */
  function DeliverFrom(buffer: Octets, len: nat, topics: seq<Octets>): Delivery
    requires |buffer| == BUFFER_SIZE
  {
    var at, topicEnd := PayloadAt(buffer), 4 + buffer[3];
    var n := StoredLength((len - at) % 65536);
    if topicEnd > BUFFER_SIZE then Outside else
    var k := FindTopic(topics, buffer[4..topicEnd]);
    if k == |topics| then NoMatch
    else if at + n > BUFFER_SIZE then Outside
    else
      Delivered(k, buffer[at..at + n],
                if QosOne(buffer[0]) then PubackPacket(buffer[topicEnd] * 256 + buffer[topicEnd + 1]) else [])
  }

  /** A packet that is as long as its topic says is taken by itself. */
  lemma WholeDelivered(buffer: Octets, len: nat, topics: seq<Octets>)
    requires |buffer| == BUFFER_SIZE && len <= BUFFER_SIZE && Whole(buffer[..len])
    ensures DeliverFrom(buffer, len, topics) == Deliver(buffer[..len], topics)
  {
    var packet, at := buffer[..len], PayloadAt(buffer);
    PartsInBuffer(buffer, len);
    hide FindTopic, PubackPacket, QosOne, TopicOf, PayloadOf, IdOf, StoredLength, Stored, Whole, PayloadAt;
    SamePayload(buffer, at, len);
  }

  lemma PartsInBuffer(buffer: Octets, len: nat)
    requires |buffer| == BUFFER_SIZE && len <= BUFFER_SIZE && Whole(buffer[..len])
    ensures
      var packet, at, end := buffer[..len], PayloadAt(buffer), 4 + buffer[3];
      && end <= at <= len && packet[0] == buffer[0]
      && TopicOf(packet) == buffer[4..end] && PayloadOf(packet) == buffer[at..len]
      && (QosOne(buffer[0]) ==> end + 2 == at && IdOf(packet) == buffer[end] * 256 + buffer[end + 1])
  {
    hide QosOne;
  }

  lemma SamePayload(buffer: Octets, at: nat, len: nat)
    requires at <= len <= |buffer| == BUFFER_SIZE
    ensures
      var n := StoredLength((len - at) % 65536);
      at + n <= BUFFER_SIZE && buffer[at..at + n] == Stored(buffer[at..len])
  {
  }

  /** Of one that is not, nothing is stored: its subscription gets 99 octets left behind it by earlier packets. */
  lemma StaleDelivered(buffer: Octets, len: nat, topics: seq<Octets>)
    requires |buffer| == BUFFER_SIZE && len <= BUFFER_SIZE && !Whole(buffer[..len])
    ensures
      var at, r := PayloadAt(buffer), DeliverFrom(buffer, len, topics);
      && at > len
      && (r.Delivered? ==> at + 99 <= BUFFER_SIZE && r.data == buffer[at..at + 99])
  {
    hide FindTopic, PubackPacket, QosOne;
  }

  /** So the answer to a ping delivers the message before it again, with what is behind it in the buffer. */
  lemma PingRepeats(buffer: Octets, topic: Octets, data: Octets, id: nat, topics: seq<Octets>)
    requires |buffer| == BUFFER_SIZE && |topic| <= 47 && |Body(topic, data, 0, id)| <= 127
    requires PublishPacket(topic, data, 0, id) <= buffer
    ensures
      var r, k := DeliverFrom(PING_RESPONSE + buffer[2..], 2, topics), FindTopic(topics, topic);
      r == if k == |topics| then NoMatch else Delivered(k, buffer[4 + |topic|..103 + |topic|], [])
  {
    var n := |topic|;
    TopicInBuffer(buffer, topic, data, id);
    BehindPing(buffer, 4, 4 + n);
    BehindPing(buffer, 4 + n, 103 + n);
    BehindPing(buffer, 3, 4);
    hide PublishPacket, FindTopic, Body, DeliverFrom;
    var now := PING_RESPONSE + buffer[2..];
    assert now[3] == now[3..4][0] == buffer[3..4][0];
    StaleTopic(now, 2, topic, topics);
  }

  lemma BehindPing(buffer: Octets, a: nat, b: nat)
    requires 2 <= a <= b <= |buffer|
    ensures (PING_RESPONSE + buffer[2..])[a..b] == buffer[a..b]
  {
  }

  /** A packet that is too short, of another kind than QoS 1, in front of a topic. */
  lemma StaleTopic(buffer: Octets, len: nat, topic: Octets, topics: seq<Octets>)
    requires |buffer| == BUFFER_SIZE && len < 4 + |topic| <= 51
    requires buffer[0] == PING_RESPONSE[0] && buffer[3] == |topic| && buffer[4..4 + |topic|] == topic
    ensures
      var k := FindTopic(topics, topic);
      DeliverFrom(buffer, len, topics) ==
        if k == |topics| then NoMatch else Delivered(k, buffer[4 + |topic|..103 + |topic|], [])
  {
    NegativeLength(4 + |topic| - len);
    hide FindTopic, StoredLength;
  }

  lemma TopicInBuffer(buffer: Octets, topic: Octets, data: Octets, id: nat)
    requires |buffer| == BUFFER_SIZE && |Body(topic, data, 0, id)| <= 127 && PublishPacket(topic, data, 0, id) <= buffer
    ensures buffer[3] == |topic| && 4 + |topic| <= BUFFER_SIZE && buffer[4..4 + |topic|] == topic
  {
    ShortPacket(topic, data, 0, id);
    hide PublishPacket, Body;
    var p := PublishPacket(topic, data, 0, id);
    assert buffer[..|p|] == p;
  }

  /** A length below zero is taken for a great one. */
  lemma NegativeLength(n: nat)
    requires 0 < n <= 1000
    ensures StoredLength((0 - n) % 65536) == DATA_LIMIT - 1
  {
  }

  lemma WordBack(n: nat)
    requires n < 65536
    ensures Word(n)[0] * 256 + Word(n)[1] == n
  {
  }

  /** The octets of a packet on the line. */
  lemma PacketBytes(topic: Octets, data: Octets, qos: nat, id: nat)
    requires qos <= 2 && id < 65536 && |topic| < 65536 && |Body(topic, data, qos, id)| < 16384
    ensures
      var n := 2 + |topic| + (if qos > 0 then 2 else 0) + |data|;
      PublishPacket(topic, data, qos, id) ==
        [0x30 + 2 * qos] + (if n < 128 then [n] else [n % 128 + 128, n / 128])
        + ([|topic| / 256, |topic| % 256] + topic + (if qos > 0 then [id / 256, id % 256] else []) + data)
  {
    var n := 2 + |topic| + (if qos > 0 then 2 else 0) + |data|;
    CodeBytes(n);
    WordBytes(|topic|);
    WordBytes(id);
    assert |Body(topic, data, qos, id)| == n;
    hide EncodeLength, Word;
  }

  lemma CodeBytes(n: nat)
    requires n < 16384
    ensures EncodeLength(n) == if n < 128 then [n] else [n % 128 + 128, n / 128]
  {
    if n >= 128 {
      LongCode(n);
      assert EncodeLength(n / 128) == [n / 128];
    }
  }

  lemma WordBytes(n: nat)
    requires n < 65536
    ensures Word(n) == [n / 256, n % 256]
  {
  }

  /** The layout of a short packet. */
  lemma ShortPacket(topic: Octets, data: Octets, qos: nat, id: nat)
    requires qos <= 1 && |Body(topic, data, qos, id)| <= 127
    ensures
      var p := PublishPacket(topic, data, qos, id);
      var at := 4 + |topic| + 2 * qos;
      && |p| == at + |data| && p[0] == 48 + 2 * qos && p[3] == |topic| && p[4..4 + |topic|] == topic && p[at..] == data
      && (qos == 1 ==> p[4 + |topic|] == Word(id)[0] && p[5 + |topic|] == Word(id)[1])
  {
    var body := Body(topic, data, qos, id);
    assert EncodeLength(|body|) == [|body|];
    var p := PublishPacket(topic, data, qos, id);
    assert p == [48 + 2 * qos, |body|] + body;
    assert p[2..] == body;
    assert body[2..2 + |topic|] == topic;
    assert p[4..4 + |topic|] == topic;
    assert p[4 + |topic| + 2 * qos..] == body[2 + |topic| + 2 * qos..] == data;
  }

  lemma FirstOctet(qos: nat)
    requires qos <= 1
    ensures QosOne(48 + 2 * qos) <==> qos == 1
  {
  }

  /** The parser takes a short packet apart into what it was printed from. */
  lemma ShortParts(topic: Octets, data: Octets, qos: nat, id: nat)
    requires qos <= 1 && id < 65536 && |Body(topic, data, qos, id)| <= 127
    ensures
      var p := PublishPacket(topic, data, qos, id);
      && Whole(p) && TopicOf(p) == topic && PayloadOf(p) == data
      && QosOne(p[0]) == (qos == 1) && (qos == 1 ==> IdOf(p) == id)
  {
    ShortPacket(topic, data, qos, id);
    FirstOctet(qos);
    WordBack(id);
    hide Word, QosOne, PublishPacket;
  }

  /** Two topics are the same but for the case of letters. */
  predicate Matches(a: Octets, b: Octets) {
    && |a| == |b|
    && forall i :: 0 <= i < |a| ==>
         || a[i] == b[i]
         || (65 <= a[i] <= 90 && b[i] == a[i] + 32)
         || (65 <= b[i] <= 90 && a[i] == b[i] + 32)
  }

  lemma SameTopicIff(a: Octets, b: Octets)
    ensures SameTopic(a, b) <==> Matches(a, b)
  {
  }

  /** A published message of up to 127 octets after the length is read off the stream, found by its topic, stored
      whole, or its first 99 octets if it is over the limit of 100, and acknowledged with its own id at QoS 1, whatever
      `behind` earlier packets have left there. */
  lemma PublishedIsDelivered(
    topic: Octets, data: Octets, qos: nat, id: nat, tail: Octets, topics: seq<Octets>, behind: Octets)
    requires qos <= 1 && id < 65536 && |Body(topic, data, qos, id)| <= 127
    requires |PublishPacket(topic, data, qos, id) + behind| == BUFFER_SIZE
    ensures
      var p := PublishPacket(topic, data, qos, id);
      var r := DeliverFrom(p + behind, |p|, topics);
      && ReadFullPacket(p + tail) == Packet(p, tail)
      && (if forall j :: 0 <= j < |topics| ==> !Matches(topics[j], topic) then r == NoMatch
          else
            && r.Delivered? && r.index < |topics| && Matches(topics[r.index], topic)
            && (forall j :: 0 <= j < r.index ==> !Matches(topics[j], topic))
            && r.data == (if |data| <= 100 then data else data[..99])
            && r.reply == (if qos == 1 then [0x40, 2, id / 256, id % 256] else []))
  {
    hide *;
    PublishRead(topic, data, qos, id, tail);
    ShortDelivered(topic, data, qos, id, topics, behind);
    FoundIff(topics, topic);
    StoredIs(data);
    PubackBytes(id);
  }

  lemma PublishRead(topic: Octets, data: Octets, qos: nat, id: nat, tail: Octets)
    requires qos <= 1 && |Body(topic, data, qos, id)| <= 127
    ensures
      var p := PublishPacket(topic, data, qos, id);
      ReadFullPacket(p + tail) == Packet(p, tail)
  {
    hide ReadFullPacket, PublishPacket, Body;
    ReadsMessage(Message(topic, data, qos, id), tail);
  }

  lemma FoundIff(topics: seq<Octets>, topic: Octets)
    ensures
      var k := FindTopic(topics, topic);
      if forall j :: 0 <= j < |topics| ==> !Matches(topics[j], topic) then k == |topics|
      else k < |topics| && Matches(topics[k], topic) && forall j :: 0 <= j < k ==> !Matches(topics[j], topic)
  {
    hide FindTopic, Matches, SameTopic;
    forall j | 0 <= j < |topics|
      ensures SameTopic(topics[j], topic) <==> Matches(topics[j], topic)
    {
      SameTopicIff(topics[j], topic);
    }
  }

  lemma PubackBytes(id: nat)
    requires id < 65536
    ensures PubackPacket(id) == [0x40, 2, id / 256, id % 256]
  {
  }

  lemma ShortDelivered(topic: Octets, data: Octets, qos: nat, id: nat, topics: seq<Octets>, behind: Octets)
    requires qos <= 1 && id < 65536 && |Body(topic, data, qos, id)| <= 127
    requires |PublishPacket(topic, data, qos, id) + behind| == BUFFER_SIZE
    ensures
      var p, k := PublishPacket(topic, data, qos, id), FindTopic(topics, topic);
      DeliverFrom(p + behind, |p|, topics) ==
        if k == |topics| then NoMatch
        else Delivered(k, Stored(data), if qos == 1 then PubackPacket(id) else [])
  {
    ShortParts(topic, data, qos, id);
    var p := PublishPacket(topic, data, qos, id);
    assert (p + behind)[..|p|] == p;
    hide *;
    WholeDelivered(p + behind, |p|, topics);
    DeliversParts(p, topics, topic, data, qos, id);
  }

  lemma StoredIs(data: Octets)
    ensures Stored(data) == if |data| <= 100 then data else data[..99]
  {
  }

  lemma DeliversParts(p: Octets, topics: seq<Octets>, topic: Octets, data: Octets, qos: nat, id: nat)
    requires Whole(p) && TopicOf(p) == topic && PayloadOf(p) == data
    requires QosOne(p[0]) == (qos == 1) && (qos == 1 ==> IdOf(p) == id)
    ensures
      var k := FindTopic(topics, topic);
      Deliver(p, topics) ==
        if k == |topics| then NoMatch
        else Delivered(k, Stored(data), if qos == 1 then PubackPacket(id) else [])
  {
    hide Whole, TopicOf, PayloadOf, QosOne, IdOf, FindTopic, PubackPacket, Stored;
  }

  /** What is stored leaves room for the terminating zero exactly when the payload does not have the limit's length. */
  lemma RoomForZeroIff(data: Octets)
    ensures |Stored(data)| < DATA_LIMIT <==> |data| != DATA_LIMIT
  {
  }

  // ---------------------------------------------------------------- the acknowledgement

  /** The check `publish` makes at QoS 1, with the counter already advanced past the packet's id. */
  predicate Acknowledged(reply: Reading, counter: nat) {
    && reply.Packet? && |reply.packet| == 4 && reply.packet[0] / 16 == PUBACK
    && (reply.packet[2] * 256 + reply.packet[3] + 1) % 65536 == counter
  }

  /** An acknowledgement is taken for the packet's exactly when it carries the packet's id. */
  lemma AcknowledgedIff(id: nat, other: nat, tail: Octets)
    requires id < 65536 && other < 65536
    ensures Acknowledged(ReadFullPacket(PubackPacket(other) + tail), (id + 1) % 65536) <==> other == id
  {
    WordBack(other);
    AcknowledgementRead(other, tail);
    hide ReadFullPacket, Word;
  }

  /** Nothing but an acknowledgement packet is taken for one, and none for a packet with another id. */
  lemma AcknowledgedOnlyBy(reply: Reading, id: nat)
    requires id < 65536
    ensures Acknowledged(reply, (id + 1) % 65536) <==>
      && reply.Packet? && |reply.packet| == 4 && 0x40 <= reply.packet[0] < 0x50
      && (reply.packet[2] * 256 + reply.packet[3] - id) % 65536 == 0
  {
  }

  lemma AcknowledgementRead(id: nat, tail: Octets)
    ensures ReadFullPacket(PubackPacket(id) + tail) == Packet(PubackPacket(id), tail)
  {
    assert EncodeLength(2) == [2];
    ReadsPacket(PUBACK * 16, Word(id), tail);
    hide ReadFullPacket, EncodeLength, Word;
    assert PubackPacket(id) == [PUBACK * 16] + EncodeLength(2) + Word(id);
  }
}
