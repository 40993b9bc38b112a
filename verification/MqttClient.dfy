/** The MQTT client object: packets written to and parsed in its one buffer. */
module MqttClient {
  import opened Mqtt

  class Client {
    const buffer: array<nat>
    const topics: seq<Octets>
    const lastRead: array<Octets>   // what each subscription has stored
    var packetIdCounter: nat
    var input: Octets               // octets from the server that have arrived
    var output: Octets              // octets sent to it

    ghost predicate Valid()
      reads this
    {
      buffer.Length == BUFFER_SIZE && lastRead.Length == |topics| && packetIdCounter < 65536
    }

    constructor (topics: seq<Octets>)
      ensures Valid() && fresh(buffer) && fresh(lastRead) && this.topics == topics
      ensures packetIdCounter == 0 && input == output == []
    {
      this.topics := topics;
      buffer := new nat[BUFFER_SIZE];
      lastRead := new Octets[|topics|](_ => []);
      packetIdCounter, input, output := 0, [], [];
    }

    method Put(at: nat, s: Octets) returns (end: nat)
      requires Valid() && at + |s| <= BUFFER_SIZE
      modifies buffer
      ensures end == at + |s| && buffer[..end] == old(buffer[..at]) + s
    {
      end := at;
      ghost var was := buffer[..at];
      while end < at + |s|
        invariant at <= end <= at + |s| && buffer[..end] == was + s[..end - at]
      {
        buffer[end] := s[end - at];
        end := end + 1;
      }
    }

    method PutLength(at: nat, n: nat) returns (end: nat)
      requires Valid() && at + |EncodeLength(n)| <= BUFFER_SIZE
      modifies buffer
      ensures end == at + |EncodeLength(n)| && buffer[..end] == old(buffer[..at]) + EncodeLength(n)
    {
      end := at;
      var len := n;
      ghost var was, done := buffer[..at], [];
      while true
        invariant EncodeLength(n) == done + EncodeLength(len)
        invariant end == at + |done| && buffer[..end] == was + done
        decreases len
      {
        var encodedByte := len % 128;
        len := len / 128;
        if len > 0 { encodedByte := encodedByte + 128; }
        buffer[end] := encodedByte;
        end := end + 1;
        done := done + [encodedByte];
        if len == 0 { break; }
      }
    }

    /** The octets of a PUBLISH packet after the length. */
    method PutBody(at: nat, topic: Octets, data: Octets, qos: nat) returns (end: nat)
      requires Valid() && at + |Body(topic, data, qos, packetIdCounter)| <= BUFFER_SIZE
      modifies this`packetIdCounter, buffer
      ensures end == at + |Body(topic, data, qos, old(packetIdCounter))| && Valid()
      ensures buffer[..end] == old(buffer[..at]) + Body(topic, data, qos, old(packetIdCounter))
      ensures packetIdCounter == if qos > 0 then (old(packetIdCounter) + 1) % 65536 else old(packetIdCounter)
    {
      hide Word;
      end := Put(at, Word(|topic|));
      end := Put(end, topic);
      if qos > 0 {
        end := Put(end, Word(packetIdCounter));
        packetIdCounter := (packetIdCounter + 1) % 65536;
      }
      end := Put(end, data);
    }

    /** `publishPacket`, for a packet that fits the buffer. */
    method PrintPublish(topic: Octets, data: Octets, qos: nat) returns (len: nat)
      requires Valid() && qos < 8 && |PublishPacket(topic, data, qos, packetIdCounter)| <= BUFFER_SIZE
      modifies this`packetIdCounter, buffer
      ensures Valid() && len <= BUFFER_SIZE && buffer[..len] == PublishPacket(topic, data, qos, old(packetIdCounter))
      ensures packetIdCounter == if qos > 0 then (old(packetIdCounter) + 1) % 65536 else old(packetIdCounter)
    {
      hide EncodeLength;
      var n := 2 + |topic| + (if qos > 0 then 2 else 0) + |data|;
      ghost var body := Body(topic, data, qos, packetIdCounter);
      hide Body;
      buffer[0] := PUBLISH * 16 + qos * 2;
      assert buffer[..1] == [PUBLISH * 16 + qos * 2];
      var p := PutLength(1, n % 65536);
      len := PutBody(p, topic, data, qos);
    }

    /** `readPacket`: `n` of the octets that have arrived, or all of them if there are fewer or if `n` is 0. It writes
        behind the buffer when it takes more than there is room for. */
    method Take(at: nat, n: nat) returns (got: nat, overrun: bool)
      requires Valid() && at <= BUFFER_SIZE
      modifies this`input, buffer
      ensures overrun == (at + TakeCount(n, |old(input)|) > BUFFER_SIZE)
      ensures !overrun ==>
        && got == TakeCount(n, |old(input)|) && input == old(input)[got..]
        && buffer[..at + got] == old(buffer[..at]) + old(input)[..got]
        && buffer[at + got..] == old(buffer[at + got..])
    {
      got := 0;
      ghost var was, before := input, buffer[..];
      assert before[..at] == buffer[..at];
      while input != []
        invariant got <= |was| && input == was[got..] && (n > 0 ==> got < n)
        invariant at + got <= BUFFER_SIZE
        invariant buffer[..at + got] == before[..at] + was[..got] && buffer[at + got..] == before[at + got..]
        decreases |input|
      {
        if at + got == BUFFER_SIZE { return got, true; }
        buffer[at + got] := input[0];
        input := input[1..];
        got := got + 1;
        if got == n { return got, false; }
      }
      return got, false;
    }

    /** One more octet of the length: `code` has been read behind `first`, all of it from `was`. */
    method TakeOne(at: nat, ghost first: Octets, ghost code: Octets, ghost was: Octets) returns (ok: bool, b: nat)
      requires Valid() && at < BUFFER_SIZE && buffer[..at] == first + code && was == code + input
      modifies this`input, buffer
      ensures ok == (old(input) != [])
      ensures ok ==> b == old(input)[0] && old(input)[1..] == input
      ensures ok ==> buffer[..at + 1] == first + (code + [b]) && was == (code + [b]) + input
      ensures ok ==> buffer[at + 1..] == old(buffer[at + 1..])
    {
      ghost var before := input;
      var got, _ := Take(at, 1);
      ok := got == 1;
      b := buffer[at];
      if ok { assert buffer[..at + 1][at] == before[0] && before == [before[0]] + input; }
    }

    /** The decoding loop, from the octet behind the packet type on. */
    method ReadLength() returns (ok: bool, p: nat, value: nat)
      requires Valid()
      modifies this`input, buffer
      ensures ok == DecodeLength(old(input), 1, 0).Length?
      ensures
        var r := DecodeLength(old(input), 1, 0);
        ok ==> value == r.value && input == r.rest && 1 < p <= 4
               && p - 1 <= |old(input)| && input == old(input)[p - 1..]
               && buffer[..p] == old(buffer[..1]) + old(input)[..p - 1] && buffer[p..] == old(buffer[p..])
    {
      hide Scaled, DecodeLength;
      ghost var was, first, code := input, buffer[..1], [];
      ok, p, value := false, 1, 0;
      var multiplier, encodedByte := 1, 128;
      while encodedByte >= 128
        invariant p == 1 + |code| && 0 <= |code| <= 3 && was == code + input && buffer[..p] == first + code
        invariant buffer[p..] == old(buffer[p..])
        invariant multiplier ==
          if |code| == 0 then 1 else if |code| == 1 then 128 else if |code| == 2 then 16384 else 2097152
        invariant encodedByte >= 128 ==> DecodeLength(was, 1, 0) == DecodeLength(input, multiplier, value)
        invariant encodedByte < 128 ==> code != [] && DecodeLength(was, 1, 0) == Length(value, input)
        decreases if encodedByte >= 128 then 5 - p else 0
      {
        ghost var before := input;
        var there;
        there, encodedByte := TakeOne(p, first, code, was);
        if !there {
          DecodeNothing(multiplier, value);
          return;
        }
        DecodeStep(before, multiplier, value);
        code := code + [encodedByte];
        p := p + 1;
        value := value + Scaled(encodedByte, multiplier);
        multiplier := multiplier * 128;
        if multiplier > 128 * 128 * 128 { return; }
      }
      assert was[..p - 1] == code && was[p - 1..] == input;
      ok := true;
    }

    /** `readFullPacket`: the packet is in front of the buffer and off the input, or there is none. */
    method ReadPacket() returns (len: nat, overrun: bool)
      requires Valid()
      modifies this`input, buffer
      ensures
        match ReadFullPacket(old(input))
        case None => len == 0 && !overrun
        case Packet(packet, rest) =>
          && 0 < len == |packet| <= BUFFER_SIZE && !overrun && input == rest
          && buffer[..] == packet + old(buffer[len..])
        case Overrun => overrun
    {
      hide DecodeLength;
      ghost var was, before := input, buffer[..];
      var got, _ := Take(0, 1);
      if got != 1 { return 0, false; }
      assert buffer[..1] == [was[0]];
      ghost var afterType := input;
      var ok, p, value := ReadLength();
      if !ok { return 0, false; }
      ghost var code, rest := afterType[..p - 1], input;
      ReadsFrom(was, code, value, rest);
      hide ReadFullPacket, ReadSize, TakeCount;
      assert buffer[..p] == [was[0]] + code && buffer[p..] == before[p..];
      SizeFits(value, p);
      got, overrun := Take(p, ReadSize(value, p));
      len := p + got;
      if !overrun {
        assert buffer[..] == buffer[..len] + buffer[len..];
        assert buffer[len..] == before[p..][got..] == before[len..];
      }
    }

    /** `readSubscription`: when no octets outside the buffer are written or looked at, the first subscription to the
        topic in the buffer has stored the data behind it, and the reply is sent. */
    method ReadSubscription() returns (found: bool, index: nat)
      requires Valid()
      modifies this`input, this`output, buffer, lastRead
      ensures
        match ReadFullPacket(old(input))
        case None => !found && output == old(output) && lastRead[..] == old(lastRead[..])
        case Packet(packet, rest) =>
          input == rest && |packet| <= BUFFER_SIZE &&
          (match DeliverFrom(packet + old(buffer[|packet|..]), |packet|, topics)
           case NoMatch => !found && output == old(output) && lastRead[..] == old(lastRead[..])
           case Delivered(k, data, reply) =>
             && found && index == k < |topics|
             && lastRead[..] == old(lastRead[..])[k := data] && output == old(output) + reply
           case Outside => true)
        case Overrun => true
    {
      hide ReadFullPacket, DeliverFrom;
      index := 0;
      var len, overrun := ReadPacket();
      if len == 0 || overrun { return false, 0; }
      found, index := Parse(len);
    }

    /** The parsing of a packet in the buffer. */
    method Parse(len: nat) returns (found: bool, index: nat)
      requires Valid() && len <= BUFFER_SIZE
      modifies this`output, lastRead
      ensures
        match DeliverFrom(buffer[..], len, topics)
        case NoMatch => !found && output == old(output) && lastRead[..] == old(lastRead[..])
        case Delivered(k, data, reply) =>
          && found && index == k < |topics|
          && lastRead[..] == old(lastRead[..])[k := data] && output == old(output) + reply
        case Outside => true
    {
      hide FindTopic, PubackPacket, QosOne, StoredLength;
      ghost var all := buffer[..];
      var topicEnd := 4 + buffer[3];
      if topicEnd > BUFFER_SIZE { return false, 0; }
      assert buffer[4..topicEnd] == all[4..topicEnd];
      index := MatchTopic(buffer[4..topicEnd]);
      if index == |topics| { return false, index; }
      var acknowledged := QosOne(buffer[0]);
      var at := topicEnd + if acknowledged then 2 else 0;
      var n := StoredLength((len - at) % 65536);
      if at + n > BUFFER_SIZE { return false, index; }
      assert buffer[at..at + n] == all[at..at + n];
      var reply := [];
      if acknowledged { reply := PubackPacket(buffer[topicEnd] * 256 + buffer[topicEnd + 1]); }
      assert DeliverFrom(all, len, topics) == Delivered(index, buffer[at..at + n], reply);
      hide DeliverFrom;
      lastRead[index] := buffer[at..at + n];
      output := output + reply;
      return true, index;
    }

    method MatchTopic(topic: Octets) returns (i: nat)
      ensures i == FindTopic(topics, topic)
    {
      i := 0;
      assert topics[0..] == topics;
      while i < |topics|
        invariant 0 <= i <= |topics| && FindTopic(topics, topic) == i + FindTopic(topics[i..], topic)
      {
        if SameTopic(topics[i], topic) { return i; }
        assert topics[i..][1..] == topics[i + 1..];
        i := i + 1;
      }
    }
  }
}
