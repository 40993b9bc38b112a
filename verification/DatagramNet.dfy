/** Stop-and-wait with retransmission and duplicate suppression, for any number of nodes over lossy,
    order-preserving channels. */
module DatagramNet {

  const BROADCAST_ADDRESS := 255

  /** Node addresses; 255 is the broadcast address. */
  type Addr = a: int | 0 <= a < 255

  /** A message handed to `sendtoWait`: its destination (possibly broadcast) and payload. */
  datatype Sent<P> = Sent(dest: int, payload: P)

  /** A frame on the air. `uid` counts the sender's messages without wrapping; the header carries `Id()`.
      An acknowledgement carries the number of the message it acknowledges. */
  datatype Packet<P> = Data(uid: nat, to: int, payload: P) | Ack(uid: nat, to: int)
  {
    function Id(): nat { uid % 256 }
  }

  /** A message handed up by `recvfromAck`. */
  datatype Delivery<P> = Delivery(uid: nat, payload: P)

  datatype Phase = Idle | Waiting(dest: Addr, transmissions: nat)

  /** `out`: all messages ever given to `sendtoWait`, so the last sequence number is |out| mod 256;
      `got`: what has been handed up, per sender; `acked`: the unicast calls that returned true. */
  datatype Node<P> = Node(out: seq<Sent<P>>, got: Addr -> seq<Delivery<P>>, phase: Phase, acked: set<nat>)
  {
    /** The number of the message last handed up from a sender; 0 before the first. */
    function Last(s: Addr): nat {
      if got(s) == [] then 0 else got(s)[|got(s)| - 1].uid
    }

    /** The receiver's duplicate filter keeps one octet per sender. */
    function SeenId(s: Addr): nat { Last(s) % 256 }
  }

  datatype Net<P> = Net(node: Addr -> Node<P>, chan: (Addr, Addr) -> seq<Packet<P>>, retries: nat)

  datatype Event<P> =
    | Start(n: Addr, dest: int, payload: P)
    | Again(n: Addr)
    | GiveUp(n: Addr)
    | Take(n: Addr, from: Addr)
    | Lose(from: Addr, to: Addr, i: nat)

  // ---------------------------------------------------------------- decisions of one node

  datatype Decision = Accept | Reply | ReplyAndDeliver | Deliver | Discard

  /** A node inside `sendtoWait` for its message `uid` to `dest` looks at a frame. */
  function WhileWaiting<P>(me: Addr, dest: Addr, uid: nat, seen: nat, from: Addr, p: Packet<P>): Decision {
    if p.Ack? && from == dest && p.to == me && p.Id() == uid % 256 then Accept
    else if p.Data? && p.Id() == seen then Reply
    else Discard
  }

  /** A node in `recvfromAck` looks at a frame. */
  function WhileIdle<P>(seen: nat, p: Packet<P>): Decision {
    if p.Ack? then Discard
    else if p.Id() != seen then (if p.to != BROADCAST_ADDRESS then ReplyAndDeliver else Deliver)
    else if p.to != BROADCAST_ADDRESS then Reply
    else Discard
  }

  // ---------------------------------------------------------------- steps

  predicate Enabled<P>(net: Net<P>, e: Event<P>) {
    match e
    case Start(n, dest, _) => net.node(n).phase == Idle && 0 <= dest <= 255
    case Again(n) => net.node(n).phase.Waiting? && net.node(n).phase.transmissions % 256 <= net.retries
    case GiveUp(n) => net.node(n).phase.Waiting? && net.node(n).phase.transmissions % 256 > net.retries
    case Take(n, from) => n != from && net.chan(from, n) != []
    case Lose(from, to, i) => i < |net.chan(from, to)|
  }

  function SetNode<P>(net: Net<P>, n: Addr, v: Node<P>): Net<P> {
    net.(node := (x: Addr) => if x == n then v else net.node(x))
  }

  function SetChan<P>(net: Net<P>, s: Addr, r: Addr, c: seq<Packet<P>>): Net<P> {
    net.(chan := (x: Addr, y: Addr) => if x == s && y == r then c else net.chan(x, y))
  }

  /** A frame reaches the channels of those it is addressed to; nobody hears himself. */
  function Transmit<P>(net: Net<P>, s: Addr, p: Packet<P>): Net<P> {
    net.(chan := (x: Addr, y: Addr) =>
      if x == s && y != s && (p.to == BROADCAST_ADDRESS || p.to == y) then net.chan(x, y) + [p] else net.chan(x, y))
  }

  /** The message a node is sending or sent last. */
  function Current<P>(v: Node<P>): Packet<P>
    requires v.out != []
  {
    Data(|v.out|, v.out[|v.out| - 1].dest, v.out[|v.out| - 1].payload)
  }

  function DropAt<P>(c: seq<Packet<P>>, i: nat): seq<Packet<P>>
    requires i < |c|
  {
    c[..i] + c[i + 1..]
  }

  function Received<P>(v: Node<P>, me: Addr, from: Addr, p: Packet<P>): Decision {
    match v.phase
    case Waiting(dest, _) => WhileWaiting(me, dest, |v.out|, v.SeenId(from), from, p)
    case Idle => WhileIdle(v.SeenId(from), p)
  }

  function AfterDecision<P>(v: Node<P>, from: Addr, p: Packet<P>, d: Decision): Node<P>
    requires d in {ReplyAndDeliver, Deliver} ==> p.Data?
  {
    if d == Accept then v.(phase := Idle, acked := v.acked + {|v.out|})
    else if d in {ReplyAndDeliver, Deliver} then
      v.(got := (x: Addr) => if x == from then v.got(from) + [Delivery(p.uid, p.payload)] else v.got(x))
    else v
  }

  function Next<P>(net: Net<P>, e: Event<P>): Net<P>
    requires Enabled(net, e)
  {
    match e
    case Start(n, dest, payload) =>
      var v := net.node(n);
      var phase := if dest == BROADCAST_ADDRESS then Idle else Waiting(dest, 1);
      var w := v.(out := v.out + [Sent(dest, payload)], phase := phase);
      Transmit(SetNode(net, n, w), n, Current(w))
    case Again(n) =>
      var v := net.node(n);
      var w := v.(phase := v.phase.(transmissions := v.phase.transmissions + 1));
      if v.out == [] then net else Transmit(SetNode(net, n, w), n, Current(w))
    case GiveUp(n) => SetNode(net, n, net.node(n).(phase := Idle))
    case Take(n, from) =>
      var p := net.chan(from, n)[0];
      var v := net.node(n);
      var d := Received(v, n, from, p);
      var popped := SetNode(SetChan(net, from, n, DropAt(net.chan(from, n), 0)), n, AfterDecision(v, from, p, d));
      if d in {Reply, ReplyAndDeliver} then Transmit(popped, n, Ack(p.uid, from)) else popped
    case Lose(from, to, i) => SetChan(net, from, to, DropAt(net.chan(from, to), i))
  }

  // ---------------------------------------------------------------- what every run keeps

  ghost predicate Has<P>(got: seq<Delivery<P>>, uid: nat) {
    exists k :: 0 <= k < |got| && got[k].uid == uid
  }

  ghost predicate FromOut<P>(out: seq<Sent<P>>, r: Addr, d: Delivery<P>) {
    && 1 <= d.uid <= |out|
    && out[d.uid - 1].payload == d.payload
    && (out[d.uid - 1].dest == r || out[d.uid - 1].dest == BROADCAST_ADDRESS)
  }

  /** What `r` has handed up from `s`: messages `s` sent to it, each once, in the order they were sent. */
  ghost predicate GotOk<P>(out: seq<Sent<P>>, got: seq<Delivery<P>>, r: Addr) {
    && (forall k :: 0 <= k < |got| ==> FromOut(out, r, got[k]))
    && (forall j, k :: 0 <= j < k < |got| ==> got[j].uid < got[k].uid)
  }

  /** The data frames on the way from `s` to `r`: true copies, in order, none older than the last handed up. */
  ghost predicate DataOk<P>(out: seq<Sent<P>>, last: nat, r: Addr, fwd: seq<Packet<P>>) {
    && (forall i :: 0 <= i < |fwd| && fwd[i].Data? ==>
          && last <= fwd[i].uid
          && FromOut(out, r, Delivery(fwd[i].uid, fwd[i].payload))
          && fwd[i].to == out[fwd[i].uid - 1].dest)
    && (forall i, j :: 0 <= i < j < |fwd| && fwd[i].Data? && fwd[j].Data? ==> fwd[i].uid <= fwd[j].uid)
  }

  /** The acknowledgements on the way back to `s` are for messages handed up. */
  ghost predicate AcksOk<P>(got: seq<Delivery<P>>, s: Addr, back: seq<Packet<P>>) {
    forall i :: 0 <= i < |back| && back[i].Ack? ==> Has(got, back[i].uid)
  }

  /** A call that returned true had its message handed up. */
  ghost predicate AckedOk<P>(v: Node<P>, got: seq<Delivery<P>>, r: Addr) {
    forall u :: u in v.acked ==> 1 <= u <= |v.out| && (v.out[u - 1].dest == r ==> Has(got, u))
  }

  ghost predicate PairOk<P>(net: Net<P>, s: Addr, r: Addr) {
    var v, w := net.node(s), net.node(r);
    && GotOk(v.out, w.got(s), r)
    && DataOk(v.out, w.Last(s), r, net.chan(s, r))
    && AcksOk(w.got(s), s, net.chan(r, s))
    && AckedOk(v, w.got(s), r)
  }

  ghost predicate WaitingOk<P>(v: Node<P>) {
    v.phase.Waiting? ==> v.out != [] && v.out[|v.out| - 1].dest == v.phase.dest
  }

  ghost predicate AckedRange<P>(s: Addr, v: Node<P>) {
    forall u :: u in v.acked ==> 1 <= u <= |v.out| && 0 <= v.out[u - 1].dest < 255 && v.out[u - 1].dest != s
  }

  ghost predicate Inv<P>(net: Net<P>) {
    && (forall s: Addr :: WaitingOk(net.node(s)) && AckedRange(s, net.node(s)))
    && (forall s: Addr, r: Addr :: s != r ==> PairOk(net, s, r))
  }

  /** The sequence number octet tells the frame at the head of a channel from the one it is compared with. */
  predicate Fresh<P>(net: Net<P>, e: Event<P>)
    requires Enabled(net, e)
  {
    if e.Take? then
      var p, v := net.chan(e.from, e.n)[0], net.node(e.n);
      if p.Data? then p.uid <= v.Last(e.from) || (p.uid - v.Last(e.from)) % 256 != 0
      else v.phase.Waiting? ==> |v.out| <= p.uid || (|v.out| - p.uid) % 256 != 0
    else true
  }

  // ---------------------------------------------------------------- lemmas on one channel

  lemma DropKeepsData<P>(out: seq<Sent<P>>, last: nat, r: Addr, c: seq<Packet<P>>, i: nat)
    requires i < |c| && DataOk(out, last, r, c)
    ensures DataOk(out, last, r, DropAt(c, i))
  {
    var d := DropAt(c, i);
    assert forall k :: 0 <= k < |d| ==> d[k] == c[if k < i then k else k + 1];
  }

  lemma DropKeepsAcks<P>(got: seq<Delivery<P>>, s: Addr, c: seq<Packet<P>>, i: nat)
    requires i < |c| && AcksOk(got, s, c)
    ensures AcksOk(got, s, DropAt(c, i))
  {
    var d := DropAt(c, i);
    assert forall k :: 0 <= k < |d| ==> d[k] == c[if k < i then k else k + 1];
  }

  lemma HasGrows<P>(got: seq<Delivery<P>>, d: Delivery<P>)
    ensures forall u :: Has(got, u) ==> Has(got + [d], u)
    ensures Has(got + [d], d.uid)
  {
    forall u | Has(got, u)
      ensures Has(got + [d], u)
    {
      var k :| 0 <= k < |got| && got[k].uid == u;
      assert (got + [d])[k].uid == u;
    }
    assert (got + [d])[|got|] == d;
  }

  /** More messages sent do not disturb what is on the way or has arrived. */
  lemma OutGrows<P>(out: seq<Sent<P>>, m: Sent<P>, last: nat, r: Addr, fwd: seq<Packet<P>>, got: seq<Delivery<P>>)
    requires DataOk(out, last, r, fwd) && GotOk(out, got, r)
    ensures DataOk(out + [m], last, r, fwd) && GotOk(out + [m], got, r)
  {
    var o := out + [m];
    forall i | 0 <= i < |fwd| && fwd[i].Data?
      ensures FromOut(o, r, Delivery(fwd[i].uid, fwd[i].payload))
    {
      assert FromOut(out, r, Delivery(fwd[i].uid, fwd[i].payload));
    }
    forall k | 0 <= k < |got|
      ensures FromOut(o, r, got[k])
    {
      assert FromOut(out, r, got[k]);
    }
  }

  /** The newest message, or another copy of it, joins the end of the channel. */
  lemma DataAppended<P>(out: seq<Sent<P>>, last: nat, r: Addr, fwd: seq<Packet<P>>, p: Packet<P>)
    requires DataOk(out, last, r, fwd) && p.Data? && p.uid == |out| >= 1 && last <= |out|
    requires FromOut(out, r, Delivery(p.uid, p.payload)) && p.to == out[p.uid - 1].dest
    ensures DataOk(out, last, r, fwd + [p])
  {
    var c := fwd + [p];
    forall i | 0 <= i < |c| && c[i].Data?
      ensures last <= c[i].uid && FromOut(out, r, Delivery(c[i].uid, c[i].payload)) && c[i].to == out[c[i].uid - 1].dest
    {
      if i < |fwd| { assert c[i] == fwd[i]; }
    }
  }

  lemma AckAppendedToData<P>(out: seq<Sent<P>>, last: nat, r: Addr, fwd: seq<Packet<P>>, p: Packet<P>)
    requires DataOk(out, last, r, fwd) && p.Ack?
    ensures DataOk(out, last, r, fwd + [p])
  {
    var c := fwd + [p];
    forall i | 0 <= i < |c| && c[i].Data?
      ensures last <= c[i].uid && FromOut(out, r, Delivery(c[i].uid, c[i].payload)) && c[i].to == out[c[i].uid - 1].dest
    {
      assert c[i] == fwd[i];
    }
  }

  lemma AppendedAcks<P>(got: seq<Delivery<P>>, s: Addr, back: seq<Packet<P>>, p: Packet<P>)
    requires AcksOk(got, s, back) && (p.Ack? ==> Has(got, p.uid))
    ensures AcksOk(got, s, back + [p])
  {
    var c := back + [p];
    forall i | 0 <= i < |c| && c[i].Ack?
      ensures Has(got, c[i].uid)
    {
      if i < |back| { assert c[i] == back[i]; }
    }
  }

  lemma LastBounded<P>(v: Node<P>, w: Node<P>, s: Addr, r: Addr)
    requires GotOk(v.out, w.got(s), r)
    ensures w.Last(s) <= |v.out| && (w.Last(s) > 0 ==> Has(w.got(s), w.Last(s)))
  {
    if w.got(s) != [] {
      assert FromOut(v.out, r, w.got(s)[|w.got(s)| - 1]);
    }
  }

  // ---------------------------------------------------------------- each kind of step keeps the invariant

  lemma LoseKeeps<P>(net: Net<P>, a: Addr, b: Addr, i: nat)
    requires Inv(net) && i < |net.chan(a, b)|
    ensures Inv(SetChan(net, a, b, DropAt(net.chan(a, b), i)))
  {
    var after := SetChan(net, a, b, DropAt(net.chan(a, b), i));
    forall s: Addr, r: Addr | s != r
      ensures PairOk(after, s, r)
    {
      assert PairOk(net, s, r);
      if s == a && r == b {
        DropKeepsData(net.node(s).out, net.node(r).Last(s), r, net.chan(s, r), i);
      } else if s == b && r == a {
        DropKeepsAcks(net.node(r).got(s), s, net.chan(r, s), i);
      }
    }
  }

  lemma PhaseKeeps<P>(net: Net<P>, n: Addr, phase: Phase)
    requires Inv(net) && WaitingOk(net.node(n).(phase := phase))
    ensures Inv(SetNode(net, n, net.node(n).(phase := phase)))
  {
    var after := SetNode(net, n, net.node(n).(phase := phase));
    forall s: Addr, r: Addr | s != r
      ensures PairOk(after, s, r)
    {
      assert PairOk(net, s, r);
    }
  }

  lemma NewMessageKeeps<P>(net: Net<P>, n: Addr, m: Sent<P>, phase: Phase)
    requires Inv(net)
    requires var w := net.node(n).(out := net.node(n).out + [m], phase := phase); WaitingOk(w)
    ensures Inv(SetNode(net, n, net.node(n).(out := net.node(n).out + [m], phase := phase)))
  {
    var v := net.node(n);
    var after := SetNode(net, n, v.(out := v.out + [m], phase := phase));
    forall s: Addr, r: Addr | s != r
      ensures PairOk(after, s, r)
    {
      assert PairOk(net, s, r);
      if s == n {
        OutGrows(v.out, m, net.node(r).Last(s), r, net.chan(s, r), net.node(r).got(s));
      }
    }
  }

  lemma DataSentKeeps<P>(net: Net<P>, n: Addr)
    requires Inv(net) && net.node(n).out != []
    ensures Inv(Transmit(net, n, Current(net.node(n))))
  {
    var p := Current(net.node(n));
    var after := Transmit(net, n, p);
    forall s: Addr, r: Addr | s != r
      ensures PairOk(after, s, r)
    {
      assert PairOk(net, s, r);
      var v, w := net.node(s), net.node(r);
      if s == n && (p.to == BROADCAST_ADDRESS || p.to == r) {
        LastBounded(v, w, s, r);
        DataAppended(v.out, w.Last(s), r, net.chan(s, r), p);
      } else if r == n && (p.to == BROADCAST_ADDRESS || p.to == s) {
        AppendedAcks(w.got(s), s, net.chan(r, s), p);
      }
    }
  }

  lemma AckSentKeeps<P>(net: Net<P>, n: Addr, uid: nat, to: Addr)
    requires Inv(net) && n != to && Has(net.node(n).got(to), uid)
    ensures Inv(Transmit(net, n, Ack(uid, to)))
  {
    var p: Packet<P> := Ack(uid, to);
    var after := Transmit(net, n, p);
    forall s: Addr, r: Addr | s != r
      ensures PairOk(after, s, r)
    {
      assert PairOk(net, s, r);
      if s == n && r == to {
        AckAppendedToData(net.node(s).out, net.node(r).Last(s), r, net.chan(s, r), p);
      } else if r == n && s == to {
        AppendedAcks(net.node(r).got(s), s, net.chan(r, s), p);
      }
    }
  }

  /** Handing up the data frame at the head of a channel, when it is newer than the last. */
  lemma DeliverKeeps<P>(net: Net<P>, n: Addr, from: Addr)
    requires Inv(net) && n != from && net.chan(from, n) != [] && net.chan(from, n)[0].Data?
    requires net.chan(from, n)[0].uid > net.node(n).Last(from)
    ensures
      var p, v := net.chan(from, n)[0], net.node(n);
      var w := AfterDecision(v, from, p, Deliver);
      var popped := SetChan(net, from, n, DropAt(net.chan(from, n), 0));
      Inv(SetNode(popped, n, w)) && Has(w.got(from), p.uid)
  {
    var p, v := net.chan(from, n)[0], net.node(n);
    var d := Delivery(p.uid, p.payload);
    var w := AfterDecision(v, from, p, Deliver);
    LoseKeeps(net, from, n, 0);
    var popped := SetChan(net, from, n, DropAt(net.chan(from, n), 0));
    var after := SetNode(popped, n, w);
    HasGrows(v.got(from), d);
    forall s: Addr, r: Addr | s != r
      ensures PairOk(after, s, r)
    {
      assert PairOk(popped, s, r);
      if s == from && r == n {
        assert PairOk(net, s, r);
        DeliverPair(net.node(s).out, v.got(from), v.Last(from), r, net.chan(from, n));
      }
    }
  }

  lemma DeliverPair<P>(out: seq<Sent<P>>, got: seq<Delivery<P>>, last: nat, r: Addr, fwd: seq<Packet<P>>)
    requires GotOk(out, got, r) && DataOk(out, last, r, fwd) && last == (if got == [] then 0 else got[|got| - 1].uid)
    requires fwd != [] && fwd[0].Data? && fwd[0].uid > last
    ensures
      GotOk(out, got + [Delivery(fwd[0].uid, fwd[0].payload)], r) && DataOk(out, fwd[0].uid, r, DropAt(fwd, 0))
  {
    var d := Delivery(fwd[0].uid, fwd[0].payload);
    var c := DropAt(fwd, 0);
    assert FromOut(out, r, d);
    assert forall k :: 0 <= k < |c| ==> c[k] == fwd[k + 1];
    forall j, k | 0 <= j < k < |got + [d]|
      ensures (got + [d])[j].uid < (got + [d])[k].uid
    {
      if k == |got| && j < |got| - 1 { assert got[j].uid < got[|got| - 1].uid; }
    }
  }

  /** Returning true for a message the destination has handed up. */
  lemma AcceptKeeps<P>(net: Net<P>, n: Addr, from: Addr)
    requires Inv(net) && net.node(n).phase.Waiting? && net.node(n).phase.dest == from && n != from
    requires Has(net.node(from).got(n), |net.node(n).out|)
    ensures
      var v := net.node(n);
      Inv(SetNode(net, n, v.(phase := Idle, acked := v.acked + {|v.out|})))
  {
    var v := net.node(n);
    var after := SetNode(net, n, v.(phase := Idle, acked := v.acked + {|v.out|}));
    assert WaitingOk(v);
    forall s: Addr, r: Addr | s != r
      ensures PairOk(after, s, r)
    {
      assert PairOk(net, s, r);
    }
  }

  /** An acknowledgement for the current message is told from older ones by its octet alone. */
  lemma FreshAck<P>(net: Net<P>, n: Addr, from: Addr)
    requires Inv(net) && Enabled(net, Take(n, from)) && Fresh(net, Take(n, from))
    requires
      var p, v := net.chan(from, n)[0], net.node(n);
      p.Ack? && v.phase.Waiting? && p.Id() == |v.out| % 256
    ensures Has(net.node(from).got(n), |net.node(n).out|)
  {
    var p, v, w := net.chan(from, n)[0], net.node(n), net.node(from);
    assert PairOk(net, n, from);
    assert Has(w.got(n), p.uid);
    var k :| 0 <= k < |w.got(n)| && w.got(n)[k].uid == p.uid;
    assert FromOut(v.out, from, w.got(n)[k]);
    SameResidue(|v.out|, p.uid);
  }

  lemma SameResidue(a: nat, b: nat)
    requires a >= b && a % 256 == b % 256
    ensures (a - b) % 256 == 0
  {
  }

  /** A data frame whose octet matches the filter is the message last handed up. */
  lemma FreshData<P>(net: Net<P>, n: Addr, from: Addr)
    requires Inv(net) && Enabled(net, Take(n, from)) && Fresh(net, Take(n, from)) && net.chan(from, n)[0].Data?
    ensures
      var p, v := net.chan(from, n)[0], net.node(n);
      if p.Id() == v.SeenId(from) then p.uid == v.Last(from) && Has(v.got(from), p.uid) else p.uid > v.Last(from)
  {
    var p, v := net.chan(from, n)[0], net.node(n);
    assert PairOk(net, from, n);
    LastBounded(net.node(from), v, from, n);
    if p.Id() == v.SeenId(from) { SameResidue(p.uid, v.Last(from)); }
  }

  lemma TakeKeeps<P>(net: Net<P>, n: Addr, from: Addr)
    requires Inv(net) && Enabled(net, Take(n, from)) && Fresh(net, Take(n, from))
    ensures Inv(Next(net, Take(n, from)))
  {
    var p, v := net.chan(from, n)[0], net.node(n);
    var d := Received(v, n, from, p);
    var shorter := SetChan(net, from, n, DropAt(net.chan(from, n), 0));
    LoseKeeps(net, from, n, 0);
    if p.Data? { FreshData(net, n, from); }
    var popped := SetNode(shorter, n, AfterDecision(v, from, p, d));
    if d == Accept {
      FreshAck(net, n, from);
      AcceptKeeps(shorter, n, from);
    } else if d in {ReplyAndDeliver, Deliver} {
      DeliverKeeps(net, n, from);
    } else {
      PhaseKeeps(shorter, n, v.phase);
      assert AfterDecision(v, from, p, d) == v.(phase := v.phase);
    }
    if d in {Reply, ReplyAndDeliver} { AckSentKeeps(popped, n, p.uid, from); }
  }

  /** Every step with a fresh frame keeps the invariant. */
  lemma NextKeeps<P>(net: Net<P>, e: Event<P>)
    requires Inv(net) && Enabled(net, e) && Fresh(net, e)
    ensures Inv(Next(net, e))
  {
    match e
    case Start(n, dest, payload) =>
      var v := net.node(n);
      var phase := if dest == BROADCAST_ADDRESS then Idle else Waiting(dest, 1);
      var w := v.(out := v.out + [Sent(dest, payload)], phase := phase);
      NewMessageKeeps(net, n, Sent(dest, payload), phase);
      DataSentKeeps(SetNode(net, n, w), n);
    case Again(n) =>
      var v := net.node(n);
      var phase := v.phase.(transmissions := v.phase.transmissions + 1);
      PhaseKeeps(net, n, phase);
      if v.out != [] { DataSentKeeps(SetNode(net, n, v.(phase := phase)), n); }
    case GiveUp(n) => PhaseKeeps(net, n, Idle);
    case Take(n, from) => TakeKeeps(net, n, from);
    case Lose(from, to, i) => LoseKeeps(net, from, to, i);
  }

  // ---------------------------------------------------------------- whole runs

  function Start0<P>(retries: nat): Net<P> {
    Net((x: Addr) => Node([], (y: Addr) => [], Idle, {}), (x: Addr, y: Addr) => [], retries)
  }

  /** A run in which every frame processed is fresh. */
  ghost predicate Runs<P>(net: Net<P>, es: seq<Event<P>>)
    decreases es
  {
    es == [] || (Enabled(net, es[0]) && Fresh(net, es[0]) && Runs(Next(net, es[0]), es[1..]))
  }

  function After<P>(net: Net<P>, es: seq<Event<P>>): Net<P>
    requires Runs(net, es)
    decreases es
  {
    if es == [] then net else After(Next(net, es[0]), es[1..])
  }

  lemma {:induction false} RunKeeps<P>(net: Net<P>, es: seq<Event<P>>)
    requires Inv(net) && Runs(net, es)
    ensures Inv(After(net, es))
    decreases es
  {
    if es != [] {
      NextKeeps(net, es[0]);
      RunKeeps(Next(net, es[0]), es[1..]);
    }
  }

  /** A unicast `sendtoWait` returned true for message `u` of node `s`. */
  ghost predicate ReturnedTrue<P>(net: Net<P>, s: Addr, u: nat) { u in net.node(s).acked }

  /** Message `u` of node `s` was for `r`, which handed it up with its payload at position `k` and at no other. */
  ghost predicate DeliveredOnce<P>(net: Net<P>, s: Addr, u: nat, r: Addr, k: nat) {
    var got := net.node(r).got(s);
    && r != s && 1 <= u <= |net.node(s).out| && net.node(s).out[u - 1].dest == r
    && k < |got| && got[k] == Delivery(u, net.node(s).out[u - 1].payload)
    && (forall j :: 0 <= j < |got| && got[j].uid == u ==> j == k)
  }

  /** Acknowledged implies delivered exactly once: in every run, a unicast call that returned true had its message,
      with its payload, handed up by the addressed node at exactly one position of what that node got from `s`. */
  lemma AckedDeliveredOnce<P>(retries: nat, es: seq<Event<P>>, s: Addr, u: nat) returns (r: Addr, k: nat)
    requires Runs(Start0(retries), es) && ReturnedTrue(After(Start0(retries), es), s, u)
    ensures DeliveredOnce(After(Start0(retries), es), s, u, r, k)
  {
    var net := After(Start0(retries), es);
    RunKeeps(Start0(retries), es);
    var v := net.node(s);
    assert AckedRange(s, v);
    r := v.out[u - 1].dest;
    assert PairOk(net, s, r);
    var got := net.node(r).got(s);
    assert Has(got, u);
    k :| 0 <= k < |got| && got[k].uid == u;
    assert FromOut(v.out, r, got[k]);
  }

  /** Nothing is handed up twice or out of order, acknowledged or not, broadcast or not. */
  lemma HandedUpInOrder<P>(retries: nat, es: seq<Event<P>>, s: Addr, r: Addr)
    requires Runs(Start0(retries), es) && s != r
    ensures
      var net := After(Start0(retries), es);
      GotOk(net.node(s).out, net.node(r).got(s), r)
  {
    RunKeeps(Start0(retries), es);
    assert PairOk(After(Start0(retries), es), s, r);
  }

  // ---------------------------------------------------------------- the condition is exact

  /** A message less than 256 numbers after the last one handed up from its sender, or an acknowledgement less than
      256 numbers before the message that is waiting for one. */
  predicate Close<P>(net: Net<P>, e: Event<P>)
    requires Enabled(net, e)
  {
    e.Take? ==>
      var p, v := net.chan(e.from, e.n)[0], net.node(e.n);
      if p.Data? then p.uid < v.Last(e.from) + 256 else v.phase.Waiting? ==> |v.out| < p.uid + 256
  }

  /** Fewer than 256 numbers between a frame and the one it is compared with make the frame fresh. */
  lemma CloseIsFresh<P>(net: Net<P>, e: Event<P>)
    requires Enabled(net, e) && Close(net, e)
    ensures Fresh(net, e)
  {
    if e.Take? {
      var p, v := net.chan(e.from, e.n)[0], net.node(e.n);
      if p.Data? {
        SmallResidue(p.uid, v.Last(e.from));
      } else if v.phase.Waiting? {
        SmallResidue(|v.out|, p.uid);
      }
    }
  }

  lemma SmallResidue(a: nat, b: nat)
    requires a < b + 256
    ensures a <= b || (a - b) % 256 != 0
  {
  }

  ghost predicate CloseRuns<P>(net: Net<P>, es: seq<Event<P>>)
    decreases es
  {
    es == [] || (Enabled(net, es[0]) && Close(net, es[0]) && CloseRuns(Next(net, es[0]), es[1..]))
  }

  lemma {:induction false} CloseRunsAreRuns<P>(net: Net<P>, es: seq<Event<P>>)
    requires CloseRuns(net, es)
    ensures Runs(net, es)
    decreases es
  {
    hide Enabled, Close, Fresh, Next;
    if es != [] {
      CloseIsFresh(net, es[0]);
      CloseRunsAreRuns(Next(net, es[0]), es[1..]);
    }
  }

  /** Acknowledged implies delivered exactly once, in every run with fewer than 256 numbers between the messages
      a node processes from one sender, and between a waiting call and the acknowledgements it hears. */
  lemma AckedOnceWhenClose<P>(retries: nat, es: seq<Event<P>>, s: Addr, u: nat) returns (r: Addr, k: nat)
    requires CloseRuns(Start0(retries), es)
    ensures Runs(Start0(retries), es)
    ensures
      var net := After(Start0(retries), es);
      ReturnedTrue(net, s, u) ==> DeliveredOnce(net, s, u, r, k)
  {
    CloseRunsAreRuns(Start0(retries), es);
    r, k := 0, 0;
    if ReturnedTrue(After(Start0(retries), es), s, u) { r, k := AckedDeliveredOnce(retries, es, s, u); }
  }

  /** An idle node hands up a message it has not seen exactly when the frame is fresh. */
  lemma HandedUpIffFresh<P>(net: Net<P>, n: Addr, from: Addr)
    requires Inv(net) && Enabled(net, Take(n, from)) && net.node(n).phase == Idle
    requires net.chan(from, n)[0].Data? && net.chan(from, n)[0].uid > net.node(n).Last(from)
    ensures
      var p, v := net.chan(from, n)[0], net.node(n);
      Next(net, Take(n, from)).node(n).got(from) == (
        if Fresh(net, Take(n, from)) then v.got(from) + [Delivery(p.uid, p.payload)] else v.got(from))
  {
    var p, v := net.chan(from, n)[0], net.node(n);
    if Fresh(net, Take(n, from)) {
      FreshData(net, n, from);
    } else {
      ResidueBack(p.uid, v.Last(from));
    }
  }

  lemma ResidueBack(a: nat, b: nat)
    requires a >= b && (a - b) % 256 == 0
    ensures a % 256 == b % 256
  {
  }

  /** A waiting call returns true on an acknowledgement from its destination for the right message,
      or for an older one exactly when that acknowledgement is not fresh. */
  lemma AcceptedIff<P>(net: Net<P>, n: Addr, from: Addr)
    requires Inv(net) && Enabled(net, Take(n, from)) && net.chan(from, n)[0].Ack?
    requires net.node(n).phase.Waiting? && net.node(n).phase.dest == from && net.chan(from, n)[0].to == n
    ensures
      var p, v := net.chan(from, n)[0], net.node(n);
      |v.out| in Next(net, Take(n, from)).node(n).acked <==>
        |v.out| in v.acked || p.uid == |v.out| || !Fresh(net, Take(n, from))
  {
    var p, v, w := net.chan(from, n)[0], net.node(n), net.node(from);
    assert PairOk(net, n, from);
    assert Has(w.got(n), p.uid);
    var k :| 0 <= k < |w.got(n)| && w.got(n)[k].uid == p.uid;
    assert FromOut(v.out, from, w.got(n)[k]);
    if p.Id() == |v.out| % 256 { SameResidue(|v.out|, p.uid); }
    if (|v.out| - p.uid) % 256 == 0 { ResidueBack(|v.out|, p.uid); }
  }

  // ---------------------------------------------------------------- without losses

  /** When nothing is lost and nothing else is on the way between two idle nodes, a fresh message is handed up, and the
      call returns true on its first transmission. */
  lemma NoLossDelivers<P>(net: Net<P>, s: Addr, r: Addr, payload: P)
    requires s != r && net.node(s).phase == Idle && net.node(r).phase == Idle
    requires net.chan(s, r) == [] && net.chan(r, s) == []
    requires (|net.node(s).out| + 1) % 256 != net.node(r).SeenId(s)
    ensures
      var u := |net.node(s).out| + 1;
      && Enabled(net, Start(s, r, payload))
      && var n1 := Next(net, Start(s, r, payload));
      && Enabled(n1, Take(r, s))
      && var n2 := Next(n1, Take(r, s));
      && Enabled(n2, Take(s, r))
      && var n3 := Next(n2, Take(s, r));
      && n3.node(r).got(s) == net.node(r).got(s) + [Delivery(u, payload)]
      && ReturnedTrue(n3, s, u) && n3.node(s).phase == Idle && n3.chan(s, r) == [] && n3.chan(r, s) == []
  {
    var u := |net.node(s).out| + 1;
    var n1 := Next(net, Start(s, r, payload));
    assert n1.chan(s, r) == [Data(u, r, payload)];
    var n2 := Next(n1, Take(r, s));
    assert n2.chan(r, s) == [Ack(u, s)];
    var n3 := Next(n2, Take(s, r));
  }

  /** A broadcast goes to everybody else, and its call is over at once. */
  lemma BroadcastReaches<P>(net: Net<P>, s: Addr, payload: P, r: Addr)
    requires net.node(s).phase == Idle && r != s
    ensures
      var after := Next(net, Start(s, 255, payload));
      && after.node(s).phase == Idle && after.node(s).acked == net.node(s).acked
      && after.chan(s, r) == net.chan(s, r) + [Data(|net.node(s).out| + 1, 255, payload)]
  {
  }

  // ---------------------------------------------------------------- wrapping around

  /** Node 0 has given up on `k` messages to node 1 that were all lost. */
  ghost predicate Skipped(net: Net<int>, k: nat) {
    && net.retries == 0 && |net.node(0).out| == k && net.node(0).phase == Idle && net.node(1).phase == Idle
    && net.node(1).got(0) == [] && net.chan(0, 1) == [] && net.chan(1, 0) == []
  }

  lemma {:induction false} RunsConcat<P>(net: Net<P>, es: seq<Event<P>>, fs: seq<Event<P>>)
    requires Runs(net, es) && Runs(After(net, es), fs)
    ensures Runs(net, es + fs) && After(net, es + fs) == After(After(net, es), fs)
    decreases es
  {
    if es == [] {
      assert es + fs == fs;
    } else {
      assert (es + fs)[1..] == es[1..] + fs;
      RunsConcat(Next(net, es[0]), es[1..], fs);
    }
  }

  lemma SkipOne(net: Net<int>, k: nat)
    requires Skipped(net, k)
    ensures
      var es := [Start(0, 1, 0), Lose(0, 1, 0), GiveUp(0)];
      Runs(net, es) && Skipped(After(net, es), k + 1)
  {
    var es: seq<Event<int>> := [Start(0, 1, 0), Lose(0, 1, 0), GiveUp(0)];
    var n1 := Next(net, es[0]);
    assert n1.chan(0, 1) == [Data(k + 1, 1, 0)];
    var n2 := Next(n1, es[1]);
    var n3 := Next(n2, es[2]);
    assert es[1..] == [es[1], es[2]] && es[1..][1..] == [es[2]] && es[1..][1..][1..] == [];
    assert Runs(n3, []) && Runs(n2, [es[2]]) && Runs(n1, [es[1], es[2]]);
  }

  lemma {:induction false} SkipMany(k: nat) returns (es: seq<Event<int>>)
    ensures Runs(Start0(0), es) && Skipped(After(Start0(0), es), k)
  {
    if k == 0 {
      es := [];
    } else {
      var fs := SkipMany(k - 1);
      var one: seq<Event<int>> := [Start(0, 1, 0), Lose(0, 1, 0), GiveUp(0)];
      SkipOne(After(Start0(0), fs), k - 1);
      RunsConcat(Start0(0), fs, one);
      es := fs + one;
    }
  }

  /** Without the condition the promise fails: after 255 lost messages the next one carries the octet of the
      initial filter; it is acknowledged, the call returns true, and it is never handed up. */
  lemma WrapLosesMessage() returns (es: seq<Event<int>>)
    ensures Runs(Start0(0), es)
    ensures
      var net := After(Start0(0), es);
      && Enabled(net, Start(0, 1, 7))
      && var n1 := Next(net, Start(0, 1, 7));
      && Enabled(n1, Take(1, 0)) && !Fresh(n1, Take(1, 0))
      && var n2 := Next(n1, Take(1, 0));
      && Enabled(n2, Take(0, 1))
      && var n3 := Next(n2, Take(0, 1));
      ReturnedTrue(n3, 0, 256) && n3.node(1).got(0) == []
  {
    es := SkipMany(255);
    var net := After(Start0(0), es);
    var n1 := Next(net, Start(0, 1, 7));
    assert n1.chan(0, 1) == [Data(256, 1, 7)];
    var n2 := Next(n1, Take(1, 0));
    assert n2.chan(1, 0) == [Ack(256, 0)];
    var n3 := Next(n2, Take(0, 1));
  }
}
