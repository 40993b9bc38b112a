/** One node of the reliable datagram layer: the calls as the source writes them, over driver header registers. */
module DatagramNode {
  import Net = DatagramNet

  const ACK_FLAG: bv8 := 0x80
  const ACK_PAYLOAD: seq<bv8> := [0x21]

  datatype Frame = Frame(to: nat, from: nat, id: nat, flags: bv8, payload: seq<bv8>)
  {
    predicate Octets() { to < 256 && from < 256 && id < 256 }
  }

  predicate IsAck(flags: bv8) { flags & ACK_FLAG != 0 }

  function SetFlags(flags: bv8, raised: bv8, clear: bv8): bv8 { (flags & !clear) | raised }

  lemma FlagsFacts(flags: bv8)
    ensures IsAck(SetFlags(flags, ACK_FLAG, 0)) && !IsAck(SetFlags(flags, 0, ACK_FLAG))
    ensures SetFlags(SetFlags(flags, ACK_FLAG, 0), 0, ACK_FLAG) == SetFlags(flags, 0, ACK_FLAG)
    ensures SetFlags(SetFlags(flags, 0, ACK_FLAG), 0, ACK_FLAG) == SetFlags(flags, 0, ACK_FLAG)
    ensures SetFlags(SetFlags(flags, 0, ACK_FLAG), ACK_FLAG, 0) == SetFlags(flags, ACK_FLAG, 0)
    ensures SetFlags(flags, ACK_FLAG, 0) == flags | 0x80 && SetFlags(flags, 0, ACK_FLAG) == flags & 0x7f
    ensures (flags | 0x80) & 0x80 != 0 && (flags | 0x80) & 0x7f == flags & 0x7f && (flags & 0x7f) & 0x80 == 0
    ensures SetFlags(SetFlags(flags, ACK_FLAG, 0), ACK_FLAG, 0) == SetFlags(flags, ACK_FLAG, 0)
  {
  }

  // ---------------------------------------------------------------- what one call does

  /** What the node is and knows during a call. */
  datatype Ctx = Ctx(me: nat, seen: seq<nat>, flags: bv8)
  {
    predicate Ok() { |seen| == 256 }

    function AckFor(f: Frame): Frame { Frame(f.from, me, f.id, SetFlags(flags, ACK_FLAG, 0), ACK_PAYLOAD) }
  }

  predicate IsOurAck(c: Ctx, dest: nat, id: nat, f: Frame) {
    f.from == dest && f.to == c.me && IsAck(f.flags) && f.id == id
  }

  /** A request already handed up, which is acknowledged again. */
  predicate IsRepeat(c: Ctx, f: Frame)
    requires c.Ok() && f.Octets()
  {
    !IsAck(f.flags) && f.id == c.seen[f.from]
  }

  ghost predicate AllOctets(fs: seq<Frame>) { forall i :: 0 <= i < |fs| ==> fs[i].Octets() }

  /** One wait: whether the acknowledgement came, and the acknowledgements sent meanwhile. */
  function Wait(c: Ctx, dest: nat, id: nat, heard: seq<Frame>): (bool, seq<Frame>)
    requires c.Ok() && AllOctets(heard)
    decreases heard
  {
    if heard == [] then (false, [])
    else if IsOurAck(c, dest, id, heard[0]) then (true, [])
    else
      var (ok, acks) := Wait(c, dest, id, heard[1..]);
      (ok, (if IsRepeat(c, heard[0]) then [c.AckFor(heard[0])] else []) + acks)
  }

  function HeardIn(heard: seq<seq<Frame>>, k: nat): seq<Frame> { if k < |heard| then heard[k] else [] }

  ghost predicate AllHeard(heard: seq<seq<Frame>>) { forall k :: 0 <= k < |heard| ==> AllOctets(heard[k]) }

  datatype Outcome = Outcome(ok: bool, log: seq<Frame>, transmissions: nat)

  /** A unicast call from its transmission number `k` (counted from 0) on. */
  function Call(c: Ctx, data: Frame, retries: nat, heard: seq<seq<Frame>>, k: nat): Outcome
    requires c.Ok() && AllHeard(heard) && k <= retries + 1
    decreases retries + 1 - k
  {
    if k > retries then Outcome(false, [], 0) else
    var (ok, acks) := Wait(c, data.to, data.id, HeardIn(heard, k));
    if ok then Outcome(true, [data] + acks, 1) else
    var rest := Call(c, data, retries, heard, k + 1);
    Outcome(rest.ok, [data] + acks + rest.log, rest.transmissions + 1)
  }

  function CountOf(log: seq<Frame>, f: Frame): nat {
    if log == [] then 0 else (if log[0] == f then 1 else 0) + CountOf(log[1..], f)
  }

  /** Everything on the air during a call is the message itself or an acknowledgement. */
  ghost predicate OnlyCopies(log: seq<Frame>, data: Frame) {
    forall i :: 0 <= i < |log| ==> log[i] == data || (IsAck(log[i].flags) && log[i].payload == ACK_PAYLOAD)
  }

  lemma {:induction false} CountConcat(a: seq<Frame>, b: seq<Frame>, f: Frame)
    ensures CountOf(a + b, f) == CountOf(a, f) + CountOf(b, f)
  {
    if a == [] {
      assert a + b == b;
    } else {
      assert (a + b)[1..] == a[1..] + b;
      CountConcat(a[1..], b, f);
    }
  }

  lemma {:induction false} WaitFacts(c: Ctx, dest: nat, id: nat, heard: seq<Frame>)
    requires c.Ok() && AllOctets(heard)
    ensures
      var (ok, acks) := Wait(c, dest, id, heard);
      && (ok <==> exists i :: 0 <= i < |heard| && IsOurAck(c, dest, id, heard[i]))
      && (forall i :: 0 <= i < |acks| ==> IsAck(acks[i].flags) && acks[i].payload == ACK_PAYLOAD)
    decreases heard
  {
    if heard != [] {
      FlagsFacts(c.flags);
      WaitFacts(c, dest, id, heard[1..]);
      var rest := heard[1..];
      if exists i :: 0 <= i < |heard| && IsOurAck(c, dest, id, heard[i]) {
        var i :| 0 <= i < |heard| && IsOurAck(c, dest, id, heard[i]);
        assert i > 0 ==> rest[i - 1] == heard[i];
      }
    }
  }

  /** What a waiting node does on one frame: the acknowledgement ends the wait; another message that has the number last
      handed up from its sender is acknowledged again, under that number, with this node's other flags; everything
      else is discarded. */
  lemma WaitOne(c: Ctx, dest: nat, id: nat, f: Frame)
    requires c.Ok() && f.Octets()
    ensures AllOctets([f])
    ensures
      Wait(c, dest, id, [f]) ==
        if f.from == dest && f.to == c.me && f.flags & 0x80 != 0 && f.id == id then (true, [])
        else if f.flags & 0x80 == 0 && f.id == c.seen[f.from] then
          (false, [Frame(f.from, c.me, f.id, c.flags | 0x80, [0x21])])
        else (false, [])
  {
    FlagsFacts(c.flags);
    hide SetFlags;
    assert c.AckFor(f) == Frame(f.from, c.me, f.id, c.flags | 0x80, [0x21]);
    assert IsRepeat(c, f) <==> f.flags & 0x80 == 0 && f.id == c.seen[f.from];
    assert IsOurAck(c, dest, id, f) <==> f.from == dest && f.to == c.me && f.flags & 0x80 != 0 && f.id == id;
    var fs := [f];
    assert AllOctets(fs) && fs[1..] == [];
    var rest := Wait(c, dest, id, fs[1..]);
    assert rest == (false, []) && [c.AckFor(f)] + rest.1 == [c.AckFor(f)] && [] + rest.1 == [];
  }

  /** So it does on one frame after the other, until the acknowledgement. */
  lemma {:induction false} WaitConcat(c: Ctx, dest: nat, id: nat, a: seq<Frame>, b: seq<Frame>)
    requires c.Ok() && AllOctets(a) && AllOctets(b)
    ensures AllOctets(a + b)
    ensures
      var (ok, acks) := Wait(c, dest, id, a);
      Wait(c, dest, id, a + b) ==
        if ok then (true, acks) else (Wait(c, dest, id, b).0, acks + Wait(c, dest, id, b).1)
    decreases a
  {
    hide IsOurAck, IsRepeat;
    if a == [] {
      assert a + b == b && [] + Wait(c, dest, id, b).1 == Wait(c, dest, id, b).1;
    } else {
      assert (a + b)[1..] == a[1..] + b && (a + b)[0] == a[0];
      WaitConcat(c, dest, id, a[1..], b);
      var first := if IsRepeat(c, a[0]) then [c.AckFor(a[0])] else [];
      assert first + (Wait(c, dest, id, a[1..]).1 + Wait(c, dest, id, b).1) ==
          first + Wait(c, dest, id, a[1..]).1 + Wait(c, dest, id, b).1;
    }
  }

  /** A node's transmissions that contain no copy of the message. */
  lemma {:induction false} AcksHoldNoCopy(acks: seq<Frame>, data: Frame)
    requires !IsAck(data.flags) && forall i :: 0 <= i < |acks| ==> IsAck(acks[i].flags)
    ensures CountOf(acks, data) == 0
  {
    if acks != [] {
      assert acks[0] != data;
      AcksHoldNoCopy(acks[1..], data);
    }
  }

  lemma CallStep(c: Ctx, data: Frame, retries: nat, heard: seq<seq<Frame>>, k: nat)
    requires c.Ok() && AllHeard(heard) && k <= retries
    ensures
      var (ok, acks) := Wait(c, data.to, data.id, HeardIn(heard, k));
      var rest := Call(c, data, retries, heard, k + 1);
      Call(c, data, retries, heard, k) ==
        if ok then Outcome(true, [data] + acks, 1)
        else Outcome(rest.ok, [data] + acks + rest.log, rest.transmissions + 1)
  {
  }

  lemma CallEnds(c: Ctx, data: Frame, retries: nat, heard: seq<seq<Frame>>)
    requires c.Ok() && AllHeard(heard)
    ensures Call(c, data, retries, heard, retries + 1) == Outcome(false, [], 0)
  {
  }

  /** The acknowledgement is heard in the wait after transmission `k`: a frame from the destination to this node, with
      the acknowledgement bit and the number of the message. */
  ghost predicate AckHeard(c: Ctx, data: Frame, heard: seq<seq<Frame>>, k: nat) {
    k < |heard| &&
    exists i :: 0 <= i < |heard[k]| &&
      var f := heard[k][i];
      f.from == data.to && f.to == c.me && f.flags & 0x80 != 0 && f.id == data.id
  }

  lemma OurAckHeard(c: Ctx, data: Frame, heard: seq<seq<Frame>>, k: nat)
    ensures AckHeard(c, data, heard, k) <==>
      exists i :: 0 <= i < |HeardIn(heard, k)| && IsOurAck(c, data.to, data.id, HeardIn(heard, k)[i])
  {
    var fs := HeardIn(heard, k);
    assert forall i :: 0 <= i < |fs| ==> (IsOurAck(c, data.to, data.id, fs[i]) <==>
        fs[i].from == data.to && fs[i].to == c.me && fs[i].flags & 0x80 != 0 && fs[i].id == data.id);
  }

  /** A unicast call returns true exactly when an acknowledgement for it is heard in one of its waits. */
  lemma {:induction false} TrueIffAckHeard(c: Ctx, data: Frame, retries: nat, heard: seq<seq<Frame>>, k: nat)
    requires c.Ok() && AllHeard(heard) && k <= retries + 1
    ensures Call(c, data, retries, heard, k).ok <==> exists j :: k <= j <= retries && AckHeard(c, data, heard, j)
    decreases retries + 1 - k
  {
    hide Wait, IsOurAck;
    if k <= retries {
      CallStep(c, data, retries, heard, k);
      WaitFacts(c, data.to, data.id, HeardIn(heard, k));
      TrueIffAckHeard(c, data, retries, heard, k + 1);
      OurAckHeard(c, data, heard, k);
      assert Wait(c, data.to, data.id, HeardIn(heard, k)).0 <==> AckHeard(c, data, heard, k);
    }
  }

  /** It sends at most `retries` + 1 copies of the message and gives up only after all of them; everything else it
      sends is an acknowledgement. */
  lemma {:induction false} CopiesSent(c: Ctx, data: Frame, retries: nat, heard: seq<seq<Frame>>, k: nat)
    requires c.Ok() && AllHeard(heard) && k <= retries + 1 && !IsAck(data.flags)
    ensures
      var r := Call(c, data, retries, heard, k);
      && CountOf(r.log, data) == r.transmissions <= retries + 1 - k
      && OnlyCopies(r.log, data)
      && (!r.ok ==> r.transmissions == retries + 1 - k)
    decreases retries + 1 - k
  {
    hide Wait, IsAck;
    if k <= retries {
      CallStep(c, data, retries, heard, k);
      var (ok, acks) := Wait(c, data.to, data.id, HeardIn(heard, k));
      WaitFacts(c, data.to, data.id, HeardIn(heard, k));
      OneCopy(data, acks);
      if !ok {
        CopiesSent(c, data, retries, heard, k + 1);
        CountConcat([data] + acks, Call(c, data, retries, heard, k + 1).log, data);
      }
    }
  }

  lemma OneCopy(data: Frame, acks: seq<Frame>)
    requires !IsAck(data.flags) && forall i :: 0 <= i < |acks| ==> IsAck(acks[i].flags)
    ensures CountOf([data] + acks, data) == 1
  {
    hide IsAck;
    AcksHoldNoCopy(acks, data);
    assert ([data] + acks)[1..] == acks;
  }

  /** The header octets decide exactly as the numbered frames of the network model do. */
  function Wire(p: Net.Packet<seq<bv8>>, from: Net.Addr, flags: bv8): Frame {
    match p
    case Data(uid, to, payload) =>
      Frame(if 0 <= to then to else 0, from, uid % 256, SetFlags(flags, 0, ACK_FLAG), payload)
    case Ack(uid, to) => Frame(if 0 <= to then to else 0, from, uid % 256, SetFlags(flags, ACK_FLAG, 0), ACK_PAYLOAD)
  }

  lemma WaitingDecisionAgrees(c: Ctx, me: Net.Addr, dest: Net.Addr, uid: nat, from: Net.Addr,
        p: Net.Packet<seq<bv8>>, flags: bv8)
    requires c.Ok() && c.me == me && 0 <= p.to <= 255
    ensures
      var f := Wire(p, from, flags);
      var d := Net.WhileWaiting(me, dest, uid, c.seen[from], from, p);
      && f.Octets()
      && (d == Net.Accept <==> IsOurAck(c, dest, uid % 256, f))
      && (d == Net.Reply <==> !IsOurAck(c, dest, uid % 256, f) && IsRepeat(c, f))
  {
    FlagsFacts(flags);
  }

  lemma IdleDecisionAgrees(c: Ctx, from: Net.Addr, p: Net.Packet<seq<bv8>>, flags: bv8)
    requires c.Ok() && 0 <= p.to <= 255
    ensures
      var f := Wire(p, from, flags);
      var d := Net.WhileIdle(c.seen[from], p);
      && (d in {Net.ReplyAndDeliver, Net.Deliver} <==> !IsAck(f.flags) && f.id != c.seen[from])
      && (d in {Net.ReplyAndDeliver, Net.Reply} <==> !IsAck(f.flags) && f.to != Net.BROADCAST_ADDRESS)
  {
    FlagsFacts(flags);
  }

  /** The acknowledgement sent for a data frame is the network's for its message. */
  lemma AckAgrees(c: Ctx, from: Net.Addr, p: Net.Packet<seq<bv8>>, flags: bv8)
    requires p.Data? && 0 <= c.me < 255
    ensures c.AckFor(Wire(p, from, flags)) == Wire(Net.Ack(p.uid, from), c.me, c.flags)
  {
  }

  /** It is what the sender of the frame waits for, and for no other message, from no other node. */
  lemma AckNames(c: Ctx, sender: Ctx, f: Frame, dest: nat, id: nat)
    requires f.from == sender.me
    ensures IsOurAck(sender, dest, id, c.AckFor(f)) <==> dest == c.me && id == f.id
  {
    FlagsFacts(c.flags);
  }

  /** The value of the octet that counts a call's transmissions after `n` of them. */
  function Tries(n: nat): nat { n % 256 }

  /** The retry loop gives up after some number of transmissions exactly when the limit is below 255;
      at 255 the octet never passes it. */
  lemma GivesUpIff(retries: nat)
    requires retries < 256
    ensures (exists n: nat :: Tries(n) > retries) <==> retries < 255
  {
    if retries < 255 { assert Tries(retries + 1) > retries; }
  }

  // ---------------------------------------------------------------- the object

  class RhReliable {
    const thisAddress: nat
    const retries: nat
    var lastSequenceNumber: nat
    const seenIds: array<nat>
    var retransmissions: nat

    // the driver's transmit header registers, and what it has sent
    var txTo: nat
    var txId: nat
    var txFlags: bv8
    var air: seq<Frame>

    ghost predicate Valid()
      reads this, seenIds
    {
      thisAddress < 255 && seenIds.Length == 256 && lastSequenceNumber < 256 && retransmissions < 0x1_0000_0000
    }

    ghost function Context(): Ctx
      reads this, seenIds
    {
      Ctx(thisAddress, seenIds[..], SetFlags(txFlags, 0, ACK_FLAG))
    }

    constructor (address: nat, retries: nat)
      requires address < 255
      ensures Valid() && fresh(seenIds) && air == [] && this.retries == retries
      ensures lastSequenceNumber == 0 && retransmissions == 0 && forall i :: 0 <= i < 256 ==> seenIds[i] == 0
    {
      thisAddress, this.retries := address, retries;
      lastSequenceNumber, retransmissions := 0, 0;
      seenIds := new nat[256](_ => 0);
      txTo, txId, txFlags, air := Net.BROADCAST_ADDRESS, 0, 0, [];
    }

    method Sendto(payload: seq<bv8>, address: nat)
      modifies this`txTo, this`air
      ensures txTo == address && air == old(air) + [Frame(address, thisAddress, txId, txFlags, payload)]
    {
      txTo := address;
      air := air + [Frame(txTo, thisAddress, txId, txFlags, payload)];
    }

    method Acknowledge(id: nat, from: nat)
      modifies this`txTo, this`txId, this`txFlags, this`air
      ensures txFlags == SetFlags(old(txFlags), ACK_FLAG, 0)
      ensures air == old(air) + [Frame(from, thisAddress, id, SetFlags(old(txFlags), ACK_FLAG, 0), ACK_PAYLOAD)]
    {
      txId := id;
      txFlags := SetFlags(txFlags, ACK_FLAG, 0);
      Sendto(ACK_PAYLOAD, from);
    }

    /** One more copy of the message, with the registers set up afresh. */
    method SendCopy(payload: seq<bv8>, address: nat, id: nat, ghost c: Ctx)
      requires Valid() && c == Context()
      modifies this`txTo, this`txId, this`txFlags, this`air
      ensures Context() == c && air == old(air) + [Frame(address, thisAddress, id, c.flags, payload)]
    {
      hide SetFlags;
      FlagsFacts(txFlags);
      txId := id;
      txFlags := SetFlags(txFlags, 0, ACK_FLAG);
      Sendto(payload, address);
    }

    /** One wait for an acknowledgement; `heard` is what the driver delivers before the timeout. */
    method AwaitAck(address: nat, id: nat, heard: seq<Frame>, ghost c: Ctx) returns (ok: bool)
      requires Valid() && AllOctets(heard) && c == Context()
      modifies this`txTo, this`txId, this`txFlags, this`air
      ensures Context() == c
      ensures ok == Wait(c, address, id, heard).0 && air == old(air) + Wait(c, address, id, heard).1
    {
      hide SetFlags;
      var i := 0;
      while i < |heard|
        invariant 0 <= i <= |heard| && Context() == c
        invariant Wait(c, address, id, heard).0 == Wait(c, address, id, heard[i..]).0
        invariant air + Wait(c, address, id, heard[i..]).1 == old(air) + Wait(c, address, id, heard).1
      {
        var f := heard[i];
        assert heard[i..][1..] == heard[i + 1..];
        if f.from == address && f.to == thisAddress && IsAck(f.flags) && f.id == id {
          return true;
        } else if !IsAck(f.flags) && f.id == seenIds[f.from] {
          FlagsFacts(txFlags);
          Acknowledge(f.id, f.from);
        }
        i := i + 1;
      }
      return false;
    }

    /** One turn of the retry loop: send, count, wait. A broadcast is done once sent. */
    method Attempt(payload: seq<bv8>, address: nat, id: nat, tries: nat, heard: seq<Frame>, ghost c: Ctx)
      returns (done: bool)
      requires Valid() && AllOctets(heard) && c == Context()
      modifies this`retransmissions, this`txTo, this`txId, this`txFlags, this`air
      ensures Valid() && Context() == c
      ensures
        var data := Frame(address, thisAddress, id, c.flags, payload);
        if address == Net.BROADCAST_ADDRESS then
          done && air == old(air) + [data] && retransmissions == old(retransmissions)
        else
          var (ok, acks) := Wait(c, address, id, heard);
          done == ok && air == old(air) + ([data] + acks)
          && retransmissions == if tries > 1 then (old(retransmissions) + 1) % 0x1_0000_0000 else old(retransmissions)
    {
      hide SetFlags, Wait;
      SendCopy(payload, address, id, c);
      if address == Net.BROADCAST_ADDRESS { return true; }
      if tries > 1 { retransmissions := (retransmissions + 1) % 0x1_0000_0000; }
      done := AwaitAck(address, id, heard, c);
    }

    /** `sendtoWait`; `heard[k]` is what arrives during the wait after transmission k.
        With 255 retries the source's octet counter never passes the limit, so such a call might not return. */
    method SendtoWait(payload: seq<bv8>, address: nat, heard: seq<seq<Frame>>) returns (ok: bool)
      requires Valid() && address < 256 && retries < 255 && AllHeard(heard)
      modifies this`lastSequenceNumber, this`retransmissions, this`txTo, this`txId, this`txFlags, this`air
      ensures Valid() && lastSequenceNumber == (old(lastSequenceNumber) + 1) % 256
      ensures
        var c := old(Context());
        var data := Frame(address, thisAddress, lastSequenceNumber, c.flags, payload);
        if address == Net.BROADCAST_ADDRESS then
          ok && air == old(air) + [data] && retransmissions == old(retransmissions)
        else
          var r := Call(c, data, retries, heard, 0);
          ok == r.ok && air == old(air) + r.log
          && retransmissions == (old(retransmissions) + r.transmissions - 1) % 0x1_0000_0000
    {
      hide SetFlags, Wait, Call;
      ghost var c := Context();
      lastSequenceNumber := (lastSequenceNumber + 1) % 256;
      var thisSequenceNumber := lastSequenceNumber;
      ghost var data := Frame(address, thisAddress, thisSequenceNumber, c.flags, payload);
      var tries := 0;
      ghost var sent := 0;
      while tries <= retries
        invariant 0 <= tries <= retries + 1 && Valid() && Context() == c && lastSequenceNumber == thisSequenceNumber
        invariant address == Net.BROADCAST_ADDRESS ==> tries == 0 && air == old(air)
        invariant tries == 0 ==> retransmissions == old(retransmissions)
        invariant tries > 0 ==> retransmissions == (old(retransmissions) + tries - 1) % 0x1_0000_0000
        invariant
          address != Net.BROADCAST_ADDRESS ==>
            var r, rest := Call(c, data, retries, heard, 0), Call(c, data, retries, heard, tries);
            r.ok == rest.ok && old(air) + r.log == air + rest.log && r.transmissions == tries + rest.transmissions
        decreases retries + 1 - tries
      {
        if address != Net.BROADCAST_ADDRESS { CallStep(c, data, retries, heard, tries); }
        tries := tries + 1;
        var got := Attempt(payload, address, thisSequenceNumber, tries, HeardIn(heard, tries - 1), c);
        if got { return true; }
      }
      CallEnds(c, data, retries, heard);
      return false;
    }

    /** `recvfromAck` on one frame from the driver: acknowledged unless broadcast, handed up unless it is a repeat. */
    method RecvfromAck(f: Frame) returns (delivered: bool)
      requires Valid() && f.Octets()
      modifies this`txTo, this`txId, this`txFlags, this`air, seenIds
      ensures Valid() && delivered == (f.flags & 0x80 == 0 && f.id != old(seenIds[f.from]))
      ensures seenIds[..] == if delivered then old(seenIds[..])[f.from := f.id] else old(seenIds[..])
      ensures air == old(air) +
        if f.flags & 0x80 == 0 && f.to != 255 then [Frame(f.from, thisAddress, f.id, old(txFlags) | 0x80, [0x21])]
        else []
    {
      hide SetFlags;
      FlagsFacts(txFlags);
      delivered := false;
      if !IsAck(f.flags) {
        if f.to != Net.BROADCAST_ADDRESS {
          FlagsFacts(txFlags);
          Acknowledge(f.id, f.from);
        }
        if f.id != seenIds[f.from] {
          seenIds[f.from] := f.id;
          delivered := true;
        }
      }
    }
  }
}
