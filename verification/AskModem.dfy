/** The whole ASK driver as a state machine over timer ticks, and its end-to-end theorem. */
module AskModem {
  import Crc
  import opened AskCode
  import Pll = AskPll
  import F = AskFramer

  datatype Mode = Initialising | Sleep | Idle | Tx | Rx | Cad

  /** The symbols being sent and the position in them. */
  datatype Transmitter = Transmitter(symbols: seq<bv8>, index: nat, bit: nat, sample: nat)

  datatype Ask = Ask(
    mode: Mode, line: bool,
    tx: Transmitter, txGood: nat, txHeaders: Headers,
    pll: Pll.Pll, framer: F.Framer, valid: bool, rxGood: nat, rxHeaders: Headers,
    address: bv8, promiscuous: bool)
  {
    /** Receive mode is what the framer calls listening, and a finished frame is never still being received. */
    ghost predicate Consistent() {
      && framer.listening == (mode == Rx)
      && (framer.full ==> mode != Rx && |framer.buf| >= 7)
      && framer.Safe() && pll.ramp < Pll.RAMP_LEN
      && tx.bit < 6 && tx.sample < 8
    }
  }

  function SetMode(a: Ask, m: Mode): Ask {
    a.(mode := m, framer := a.framer.(listening := m == Rx))
  }

  function Increment16(n: nat): nat { (n + 1) % 0x10000 }

  // ---------------------------------------------------------------- timer ticks

  /** What a transmission works on; `sending` is false once it has ended. */
  datatype Sender = Sender(sending: bool, line: bool, tx: Transmitter, done: nat)

  /** Puts the next bit on the line, or ends the transmission. */
  function NextBit(o: Sender): Sender
    requires o.tx.bit < 6
  {
    if o.tx.index >= |o.tx.symbols| then o.(sending := false, line := false, done := Increment16(o.done)) else
    var level := SymbolBits(o.tx.symbols[o.tx.index])[o.tx.bit];
    var tx :=
      if o.tx.bit + 1 >= 6 then o.tx.(bit := 0, index := o.tx.index + 1)
      else o.tx.(bit := o.tx.bit + 1);
    o.(line := level, tx := tx)
  }

  /** One tick: a new bit on the first of every eight. */
  function SenderStep(o: Sender): Sender
    requires o.tx.bit < 6
  {
    var p := if o.tx.sample == 0 then NextBit(o) else o;
    p.(tx := p.tx.(sample := if o.tx.sample + 1 > 7 then 0 else o.tx.sample + 1))
  }

  function TransmitTick(a: Ask): Ask
    requires a.mode == Tx && a.tx.bit < 6
  {
    var o := SenderStep(Sender(true, a.line, a.tx, a.txGood));
    var b := if o.sending then a else SetMode(a, Idle);
    b.(line := o.line, tx := o.tx, txGood := o.done)
  }

  function ReceiveTick(a: Ask, sample: bool): Ask
    requires a.mode == Rx && a.framer.listening
  {
    var (p, d) := Pll.Step(a.pll, sample);
    var g := F.Run(a.framer, d);
    if g.listening then a.(pll := p, framer := g)
    else a.(pll := p, framer := g, mode := Idle, line := false)
  }

  /** The timer interrupt. */
  function Tick(a: Ask, sample: bool): Ask
    requires a.Consistent()
  {
    if a.mode == Rx then ReceiveTick(a, sample)
    else if a.mode == Tx then TransmitTick(a)
    else a
  }

  lemma ConsistentFacts(a: Ask)
    requires a.Consistent()
    ensures a.framer.listening == (a.mode == Rx) && a.tx.bit < 6 && a.framer.Safe()
    ensures a.framer.full ==> a.mode != Rx && |a.framer.buf| >= 7
  {
  }

  lemma DeliveredConsistent(a: Ask)
    requires a.Consistent()
    ensures a.(valid := false).Consistent()
  {
  }

  lemma TickConsistent(a: Ask, sample: bool)
    requires a.Consistent()
    ensures Tick(a, sample).Consistent()
  {
    hide Pll.Step, F.Step;
    if a.mode == Rx {
      Pll.RampBounded(a.pll, sample);
      var d := Pll.Step(a.pll, sample).1;
      if d == [] {
        EmptyRun(a.framer);
      } else {
        assert d == [d[0]];
        F.RunOne(a.framer, d[0]);
        F.StepSafe(a.framer, d[0]);
        StepFills(a.framer, d[0]);
      }
    }
  }

  lemma EmptyRun(f: F.Framer)
    ensures F.Run(f, []) == f
  {
  }

  /** The framer reports a full buffer exactly when it stops listening, with a complete frame in it. */
  lemma StepFills(f: F.Framer, b: bool)
    requires f.Safe() && f.listening && !f.full
    ensures var g := F.Step(f, b); g.full == !g.listening && (g.full ==> |g.buf| == g.count >= 7)
  {
    hide Push, DecodeByte;
  }

  // ---------------------------------------------------------------- the calls of the application

  /** The bytes a message is framed with: count, headers, payload and the complemented CRC, low byte first. */
  function Body(h: Headers, data: seq<bv8>): seq<bv8>
    requires |data| <= MAX_MESSAGE_LEN
  {
    [ByteOf(|data| + 3 + HEADER_LEN), h.to, h.from, h.id, h.flags] + data
  }

  function FrameOf(h: Headers, data: seq<bv8>): seq<bv8>
    requires |data| <= MAX_MESSAGE_LEN
  {
    var crc := Crc.Complement(Crc.Over(Crc.INITIAL, Body(h, data)));
    Body(h, data) + [Crc.Lo8(crc), Crc.Hi8(crc)]
  }

  /** `send`, once any earlier transmission has ended. */
  function Send(a: Ask, data: seq<bv8>): (r: (Ask, bool))
    requires a.mode != Tx
  {
    if |data| > MAX_MESSAGE_LEN then (a, false) else
    (SetMode(a, Tx).(tx := Transmitter(PREAMBLE + Encode(FrameOf(a.txHeaders, data)), 0, 0, 0)), true)
  }

  predicate Accepts(promiscuous: bool, address: bv8, to: bv8) {
    promiscuous || to == address || to == BROADCAST_ADDRESS
  }

  predicate Intact(buf: seq<bv8>) { Crc.Over(Crc.INITIAL, buf) == Crc.GOOD }

  /** What checking a received frame works on. */
  datatype Verdict = Verdict(bad: nat, valid: bool, good: nat, headers: Headers)

  function Judge(v: Verdict, buf: seq<bv8>, promiscuous: bool, address: bv8): Verdict
    requires |buf| >= 7
  {
    if !Intact(buf) then v.(bad := Increment16(v.bad), valid := false)
    else
      var w := v.(headers := Headers(buf[1], buf[2], buf[3], buf[4]));
      if Accepts(promiscuous, address, buf[1]) then w.(good := Increment16(v.good), valid := true) else w
  }

  function Validate(a: Ask): Ask
    requires |a.framer.buf| >= 7
  {
    var v := Judge(Verdict(a.framer.bad, a.valid, a.rxGood, a.rxHeaders), a.framer.buf, a.promiscuous, a.address);
    a.(framer := a.framer.(bad := v.bad), valid := v.valid, rxGood := v.good, rxHeaders := v.headers)
  }

  /** A full buffer is checked once. */
  function Collect(a: Ask): Ask
    requires a.framer.full ==> |a.framer.buf| >= 7
  {
    if a.framer.full then (var v := Validate(a); v.(framer := v.framer.(full := false))) else a
  }

  function StartReceiving(a: Ask): Ask {
    if a.mode == Rx then a else SetMode(a, Rx).(line := false)
  }

  function Available(a: Ask): (Ask, bool)
    requires a.framer.full ==> |a.framer.buf| >= 7
  {
    if a.mode == Tx then (a, false) else
    var b := Collect(StartReceiving(a));
    (b, b.valid)
  }

  lemma AvailableConsistent(a: Ask)
    requires a.Consistent()
    ensures Available(a).0.Consistent() && Available(a).0.framer.buf == a.framer.buf
  {
    hide Judge;
  }

  /** `available` outside a transmission, field by field. */
  lemma AvailableFields(a: Ask)
    requires a.Consistent() && a.mode != Tx
    ensures
      var before := Verdict(a.framer.bad, a.valid, a.rxGood, a.rxHeaders);
      var v := if a.framer.full then Judge(before, a.framer.buf, a.promiscuous, a.address) else before;
      Available(a) ==
        (Ask(Rx, a.mode == Rx && a.line, a.tx, a.txGood, a.txHeaders, a.pll,
             a.framer.(listening := true, full := false, bad := v.bad),
             v.valid, v.good, v.headers, a.address, a.promiscuous),
         v.valid)
  {
    hide Judge;
  }

  lemma AvailableLength(a: Ask)
    requires a.Consistent() && (a.valid ==> |a.framer.buf| >= 7)
    ensures Available(a).1 ==> |Available(a).0.framer.buf| >= 7
  {
    hide Intact, Accepts;
  }

  datatype Received = Nothing | Message(headers: Headers, payload: seq<bv8>)

  /** `recv` into a buffer of `size` octets, when reception has not overwritten a message already validated. */
  function Recv(a: Ask, size: nat): (r: (Ask, Received))
    requires a.framer.full || a.valid ==> |a.framer.buf| >= 7
  {
    var (b, ok) := Available(a);
    if !ok then (b, Nothing) else
    var n := |b.framer.buf| - HEADER_LEN - 3;
    var len := if size > n then n else size;
    (b.(valid := false), Message(b.rxHeaders, b.framer.buf[HEADER_LEN + 1..HEADER_LEN + 1 + len]))
  }

  // ---------------------------------------------------------------- the transmitter slices the symbols

  function TransmitRun(a: Ask, n: nat): (Ask, seq<bool>)
    requires a.Consistent()
    decreases n
  {
    if n == 0 then (a, []) else
    TickConsistent(a, false);
    var b := Tick(a, false);
    var (c, levels) := TransmitRun(b, n - 1);
    (c, [b.line] + levels)
  }

  /** In transmission, at the start of a bit. */
  ghost predicate AtBit(a: Ask, i: nat, k: nat) {
    a.Consistent() && a.mode == Tx && a.tx.sample == 0 && a.tx.index == i && a.tx.bit == k
  }

  function At(a: Ask, i: nat, k: nat, sample: nat, line: bool): Ask {
    a.(line := line, tx := a.tx.(index := i, bit := k, sample := sample))
  }

  lemma {:induction false} HoldLevel(a: Ask, n: nat)
    requires a.Consistent() && a.mode == Tx && a.tx.sample + n == 8 && 0 < a.tx.sample
    ensures TransmitRun(a, n) == (a.(tx := a.tx.(sample := 0)), Pll.Hold(a.line, n))
    decreases n
  {
    TickConsistent(a, false);
    if n == 1 {
      var b := Tick(a, false);
      assert TransmitRun(b, 0) == (b, []);
      assert [b.line] + [] == Pll.Hold(a.line, 1);
    } else {
      HoldLevel(Tick(a, false), n - 1);
    }
  }

  /** Eight ticks put one bit on the line and move to the next. */
  lemma TransmitBit(a: Ask, i: nat, k: nat)
    requires AtBit(a, i, k) && i < |a.tx.symbols|
    ensures
      var b := SymbolBits(a.tx.symbols[i])[k];
      var next := if k == 5 then At(a, i + 1, 0, 0, b) else At(a, i, k + 1, 0, b);
      next.Consistent() && TransmitRun(a, 8) == (next, Pll.Hold(b, 8))
  {
    hide SymbolBits, TransmitRun;
    var b := SymbolBits(a.tx.symbols[i])[k];
    var c := Tick(a, false);
    TickConsistent(a, false);
    HoldLevel(c, 7);
    TransmitFirst(a, 8);
    assert [b] + Pll.Hold(b, 7) == Pll.Hold(b, 8);
  }

  lemma TransmitFirst(a: Ask, n: nat)
    requires a.Consistent() && n > 0
    ensures
      var b := Tick(a, false);
      b.Consistent() && TransmitRun(a, n) == (TransmitRun(b, n - 1).0, [b.line] + TransmitRun(b, n - 1).1)
  {
    TickConsistent(a, false);
  }

  lemma {:induction false} TransmitSplit(a: Ask, m: nat, n: nat)
    requires a.Consistent()
    ensures
      var (b, s) := TransmitRun(a, m);
      b.Consistent() && TransmitRun(a, m + n) == (TransmitRun(b, n).0, s + TransmitRun(b, n).1)
    decreases m
  {
    if m == 0 {
      assert [] + TransmitRun(a, n).1 == TransmitRun(a, n).1;
    } else {
      hide Tick;
      var b := Tick(a, false);
      TransmitFirst(a, m);
      TransmitFirst(a, m + n);
      TransmitSplit(b, m - 1, n);
      var (c, s) := TransmitRun(b, m - 1);
      assert [b.line] + (s + TransmitRun(c, n).1) == ([b.line] + s) + TransmitRun(c, n).1;
    }
  }

  lemma BitsFrom(symbols: seq<bv8>, i: nat, k: nat)
    requires i < |symbols| && k < 6
    ensures
      var rest := if k == 5 then LineBits(symbols[i + 1..]) else LineBits(symbols[i..])[k + 1..];
      LineBits(symbols[i..])[k..] == [SymbolBits(symbols[i])[k]] + rest
  {
    hide SymbolBits;
    assert symbols[i..][1..] == symbols[i + 1..];
    assert LineBits(symbols[i..]) == SymbolBits(symbols[i]) + LineBits(symbols[i + 1..]);
  }

  function BitsLeft(a: Ask): int { 6 * (|a.tx.symbols| - a.tx.index) - a.tx.bit }

  /** The rest of the symbol buffer goes out bit for bit, eight ticks each. */
  lemma {:induction false} TransmitSymbols(a: Ask, i: nat, k: nat)
    requires AtBit(a, i, k) && (i < |a.tx.symbols| || (i == |a.tx.symbols| && k == 0))
    ensures
      var (b, s) := TransmitRun(a, 8 * BitsLeft(a));
      && s == Pll.Slice(LineBits(a.tx.symbols[i..])[k..])
      && AtBit(b, |a.tx.symbols|, 0) && b == At(a, |a.tx.symbols|, 0, 0, b.line)
    decreases BitsLeft(a)
  {
    hide SymbolBits, Tick, LineBits, TransmitRun, Pll.Slice, Pll.Hold;
    if i == |a.tx.symbols| {
      assert a.tx.symbols[i..] == [];
      NoSymbols();
      NoTicks(a);
    } else {
      var left := BitsLeft(a);
      TransmitBit(a, i, k);
      TransmitSplit(a, 8, 8 * (left - 1));
      var c := TransmitRun(a, 8).0;
      BitsFrom(a.tx.symbols, i, k);
      if k == 5 {
        TransmitSymbols(c, i + 1, 0);
        assert LineBits(a.tx.symbols[i + 1..])[0..] == LineBits(a.tx.symbols[i + 1..]);
      } else {
        TransmitSymbols(c, i, k + 1);
      }
      SliceFirst(LineBits(a.tx.symbols[i..])[k..]);
    }
  }

  lemma NoSymbols()
    ensures LineBits([]) == [] && Pll.Slice([]) == []
  {
  }

  lemma NoTicks(a: Ask)
    requires a.Consistent()
    ensures TransmitRun(a, 0) == (a, [])
  {
  }

  lemma SliceFirst(bs: seq<bool>)
    requires bs != []
    ensures Pll.Slice(bs) == Pll.Hold(bs[0], 8) + Pll.Slice(bs[1..])
  {
  }

  /** After the last bit the line is released and the transmitter is idle again. */
  lemma TransmitAll(a: Ask)
    requires AtBit(a, 0, 0)
    ensures
      var (b, s) := TransmitRun(a, 48 * |a.tx.symbols| + 1);
      && b.mode == Idle && !b.line && b.txGood == (a.txGood + 1) % 0x10000
      && s == Pll.Slice(LineBits(a.tx.symbols)) + [false]
  {
    hide LineBits;
    var n := 48 * |a.tx.symbols|;
    assert a.tx.symbols[0..] == a.tx.symbols && LineBits(a.tx.symbols)[0..] == LineBits(a.tx.symbols);
    TransmitSymbols(a, 0, 0);
    TransmitSplit(a, n, 1);
    var b := TransmitRun(a, n).0;
    TransmitFirst(b, 1);
    assert TransmitRun(Tick(b, false), 0) == (Tick(b, false), []);
    assert [false] + [] == [false];
  }

  // ---------------------------------------------------------------- the receiver composed

  function ReceiveRun(a: Ask, samples: seq<bool>): Ask
    requires a.Consistent()
    decreases samples
  {
    if samples == [] then a else
    TickConsistent(a, samples[0]);
    ReceiveRun(Tick(a, samples[0]), samples[1..])
  }

  lemma {:induction false} ReceiveRunConcat(a: Ask, s: seq<bool>, t: seq<bool>)
    requires a.Consistent()
    ensures ReceiveRun(a, s).Consistent() && ReceiveRun(a, s + t) == ReceiveRun(ReceiveRun(a, s), t)
    decreases s
  {
    hide Tick;
    if s == [] {
      assert s + t == t;
    } else {
      assert (s + t)[1..] == s[1..] + t;
      TickConsistent(a, s[0]);
      ReceiveRunConcat(Tick(a, s[0]), s[1..], t);
    }
  }

  lemma {:induction false} IdleRun(a: Ask, samples: seq<bool>)
    requires a.Consistent() && a.mode == Idle
    ensures ReceiveRun(a, samples) == a
    decreases samples
  {
    if samples != [] { IdleRun(a, samples[1..]); }
  }

  /** The receiver is the framer fed with the bits the loop detects, until a frame is complete. */
  lemma {:induction false} ReceiveIsFraming(a: Ask, samples: seq<bool>)
    requires a.Consistent() && a.mode == Rx
    ensures
      var b := ReceiveRun(a, samples);
      var (p, d) := Pll.Run(a.pll, samples);
      && b.framer == F.Run(a.framer, d)
      && b.mode == (if b.framer.listening then Rx else Idle)
      && (b.mode == Rx ==> b.pll == p)
      && b.valid == a.valid && b.address == a.address && b.promiscuous == a.promiscuous && (b.line ==> a.line)
    decreases samples
  {
    hide Pll.Step, F.Step;
    if samples == [] {
      EmptyRun(a.framer);
    } else {
      TickConsistent(a, samples[0]);
      var b := Tick(a, samples[0]);
      var (q, d) := Pll.Step(a.pll, samples[0]);
      var e := Pll.Run(q, samples[1..]).1;
      F.RunConcat(a.framer, d, e);
      if b.mode == Rx {
        ReceiveIsFraming(b, samples[1..]);
      } else {
        IdleRun(b, samples[1..]);
        F.StoppedStays(b.framer, e);
      }
    }
  }

  /** One more low sample detects the bit still pending. */
  lemma FlushRun(p: Pll.Pll, bs: seq<bool>)
    requires Pll.Locked(p)
    ensures Pll.Run(p, Pll.Slice(bs) + [false]).1 == Pll.Pending(p) + bs
  {
    hide Pll.Run;
    Pll.LockedRun(p, bs);
    var q := Pll.Run(p, Pll.Slice(bs)).0;
    Pll.RunConcat(p, Pll.Slice(bs), [false]);
    LowSample(q);
  }

  lemma LowSample(q: Pll.Pll)
    requires Pll.Locked(q)
    ensures Pll.Run(q, [false]).1 == Pll.Pending(q)
  {
    assert [false][1..] == [];
    var d := Pll.Step(q, false).1;
    assert d + [] == d;
  }

  // ---------------------------------------------------------------- end to end

  /** The bits of a transmission whose training has `n` pairs. */
  function Transmission(n: nat, frame: seq<bv8>): seq<bool> {
    F.Pairs(n) + F.START_BITS + LineBits(Encode(frame))
  }

  lemma SearchingAfterPending(f: F.Framer, p: Pll.Pll)
    requires f.Safe() && f.listening && !f.active
    ensures
      var g := F.Run(f, Pll.Pending(p));
      g.Searching() && g.full == f.full
  {
    hide Push;
    if p.ramp > 8 {
      F.RunOne(f, p.last);
      F.PushFits(f.bits, p.last);
    } else {
      EmptyRun(f);
    }
  }

  /** A locked receiver that is not inside a frame gets exactly the frame that follows seven training pairs or more. */
  lemma ReceiverGets(r: Ask, n: nat, frame: seq<bv8>)
    requires r.Consistent() && r.mode == Rx && !r.framer.active && Pll.Locked(r.pll)
    requires n >= 7 && F.LegalFrame(frame)
    ensures
      var b := ReceiveRun(r, Pll.Slice(Transmission(n, frame)) + [false]);
      && b.mode == Idle && b.framer.full && b.framer.buf == frame
      && b.valid == r.valid && b.address == r.address && b.promiscuous == r.promiscuous
  {
    hide ReceiveRun, Pll.Run, F.Run, Pll.Pending, F.Pairs, Encode, LineBits;
    var bs := Transmission(n, frame);
    FlushRun(r.pll, bs);
    ReceiveIsFraming(r, Pll.Slice(bs) + [false]);
    F.RunConcat(r.framer, Pll.Pending(r.pll), bs);
    SearchingAfterPending(r.framer, r.pll);
    F.FrameReceived(F.Run(r.framer, Pll.Pending(r.pll)), n, frame);
  }

  lemma BodyLength(h: Headers, data: seq<bv8>)
    requires |data| <= MAX_MESSAGE_LEN
    ensures |Body(h, data)| == |data| + 5
  {
  }

  /** The nibbles `send` takes out of the CRC are those of its two bytes. */
  lemma FcsNibbles(crc: bv16)
    ensures ((crc >> 4) & 0xf) as bv8 == High(Crc.Lo8(crc)) && (crc & 0xf) as bv8 == Low(Crc.Lo8(crc))
    ensures ((crc >> 12) & 0xf) as bv8 == High(Crc.Hi8(crc)) && ((crc >> 8) & 0xf) as bv8 == Low(Crc.Hi8(crc))
  {
  }

  lemma FrameIsGood(h: Headers, data: seq<bv8>)
    requires |data| <= MAX_MESSAGE_LEN
    ensures
      var frame := FrameOf(h, data);
      && F.LegalFrame(frame) && |frame| == |data| + 7 && Intact(frame)
      && Headers(frame[1], frame[2], frame[3], frame[4]) == h
      && frame[5..|frame| - 2] == data
  {
    hide Crc.Over, Crc.Lo8, Crc.Hi8, Crc.Complement, NatOf, ByteOf;
    var frame := FrameOf(h, data);
    assert frame[..|frame| - 2] == Body(h, data);
    Crc.ResidueIff(frame);
    CountByte(|data| + 7);
    assert frame[0] == ByteOf(|data| + 7);
  }

  /** `recv` hands out the headers and payload that were framed, when the frame is addressed to this node. */
  lemma RecvFrame(b: Ask, h: Headers, data: seq<bv8>, size: nat)
    requires b.mode == Idle && b.framer.full && !b.valid
    requires |data| <= MAX_MESSAGE_LEN && b.framer.buf == FrameOf(h, data)
    ensures |b.framer.buf| >= 7
    ensures
      Recv(b, size).1 ==
        if b.promiscuous || h.to == b.address || h.to == 0xff then
          Message(h, data[..if size > |data| then |data| else size])
        else Nothing
  {
    hide Intact, FrameOf;
    FrameIsGood(h, data);
    var frame := FrameOf(h, data);
    var n := if size > |data| then |data| else size;
    assert frame[5..5 + n] == data[..n];
    var c := Available(b).0;
    assert c.valid == Accepts(b.promiscuous, b.address, h.to) && c.rxHeaders == h && c.framer.buf == frame;
  }

  /** What `recv` makes of a frame just received: its headers and payload when its CRC is right and it is addressed to
      this node or everybody. Either way the frame is gone, and counted good or bad. */
  lemma RecvIff(a: Ask, size: nat)
    requires a.mode != Tx && a.framer.full && |a.framer.buf| >= 7 && !a.valid
    ensures
      var (b, got) := Recv(a, size);
      var f, n := a.framer.buf, |a.framer.buf| - 7;
      var intact := Crc.Over(0xffff, f) == 0xf0b8;
      var ours := intact && (a.promiscuous || f[1] == a.address || f[1] == 0xff);
      && got == (if ours then
                   Message(Headers(f[1], f[2], f[3], f[4]), f[5..5 + (if size > n then n else size)])
                 else Nothing)
      && !b.valid && !b.framer.full && b.mode == Rx && (a.mode != Rx ==> b.framer.listening)
      && b.framer.bad == (if intact then a.framer.bad else (a.framer.bad + 1) % 0x10000)
      && b.rxGood == (if ours then (a.rxGood + 1) % 0x10000 else a.rxGood)
  {
    hide Crc.Over;
    JudgeIff(Verdict(a.framer.bad, a.valid, a.rxGood, a.rxHeaders), a.framer.buf, a.promiscuous, a.address);
    hide Judge;
  }

  lemma JudgeIff(v: Verdict, f: seq<bv8>, promiscuous: bool, address: bv8)
    requires |f| >= 7 && !v.valid
    ensures
      var intact := Crc.Over(0xffff, f) == 0xf0b8;
      var ours := intact && (promiscuous || f[1] == address || f[1] == 0xff);
      Judge(v, f, promiscuous, address) ==
        Verdict(if intact then v.bad else (v.bad + 1) % 0x10000, ours,
                if ours then (v.good + 1) % 0x10000 else v.good,
                if intact then Headers(f[1], f[2], f[3], f[4]) else v.headers)
  {
    hide Crc.Over;
  }

  /** A message is returned once. */
  lemma RecvOnce(a: Ask, size: nat, again: nat)
    requires a.framer.full || a.valid ==> |a.framer.buf| >= 7
    ensures
      var b := Recv(a, size).0;
      if a.mode == Tx then b == a && Recv(a, size).1 == Nothing
      else !b.framer.full && !b.valid && Recv(b, again) == (b, Nothing)
  {
    hide Judge;
    if a.mode != Tx {
      var b := Recv(a, size).0;
      assert b.mode == Rx && !b.framer.full && !b.valid;
      NothingMore(b, again);
    }
  }

  lemma NothingMore(b: Ask, size: nat)
    requires b.mode == Rx && !b.framer.full && !b.valid
    ensures Recv(b, size) == (b, Nothing)
  {
  }

  /** What `recv` returns of a message validated before. */
  lemma RecvValidated(a: Ask, size: nat)
    requires a.mode != Tx && !a.framer.full && (a.valid ==> |a.framer.buf| >= 7)
    ensures
      var n := |a.framer.buf| - 7;
      Recv(a, size).1 ==
        if a.valid then Message(a.rxHeaders, a.framer.buf[5..5 + (if size > n then n else size)]) else Nothing
  {
  }

  /** No frame with a wrong CRC is returned. */
  lemma CorruptRejected(a: Ask, size: nat, h: Headers, data: seq<bv8>)
    requires a.mode != Tx && a.framer.full && |a.framer.buf| >= 7 && !a.valid
    requires |data| <= 60 && Crc.Over(0xffff, a.framer.buf) != Crc.Over(0xffff, FrameOf(h, data))
    ensures
      var (b, got) := Recv(a, size);
      got == Nothing && !b.valid && b.framer.bad == (a.framer.bad + 1) % 0x10000
  {
    hide FrameOf, Recv, Crc.Over;
    FrameIsGood(h, data);
    RecvIff(a, size);
  }

  /** So none that was changed in an odd number of bits, */
  lemma OddErrorsRejected(a: Ask, size: nat, h: Headers, data: seq<bv8>)
    requires a.mode != Tx && a.framer.full && |a.framer.buf| >= 7 && !a.valid
    requires |data| <= 60 && |a.framer.buf| == |FrameOf(h, data)|
    requires Crc.Differences(Crc.BitsOf(a.framer.buf), Crc.BitsOf(FrameOf(h, data))) % 2 == 1
    ensures
      var (b, got) := Recv(a, size);
      got == Nothing && !b.valid && b.framer.bad == (a.framer.bad + 1) % 0x10000
  {
    hide FrameOf, Recv, Crc.Over;
    Crc.OddErrorsDetected(0xffff, a.framer.buf, FrameOf(h, data));
    CorruptRejected(a, size, h, data);
  }

  /** nor one that was changed only within sixteen consecutive bits. */
  lemma BurstRejected(a: Ask, size: nat, h: Headers, data: seq<bv8>, pre: seq<bool>, v: bv16, w: bv16, post: seq<bool>)
    requires a.mode != Tx && a.framer.full && |a.framer.buf| >= 7 && !a.valid
    requires |data| <= 60 && v != w
    requires Crc.BitsOf(a.framer.buf) == pre + Crc.BitsOfWord(v, 16) + post
    requires Crc.BitsOf(FrameOf(h, data)) == pre + Crc.BitsOfWord(w, 16) + post
    ensures
      var (b, got) := Recv(a, size);
      got == Nothing && !b.valid && b.framer.bad == (a.framer.bad + 1) % 0x10000
  {
    hide FrameOf, Recv, Crc.Over;
    Crc.BurstDetected(0xffff, a.framer.buf, FrameOf(h, data), pre, v, w, post);
    CorruptRejected(a, size, h, data);
  }

  function TwoOctets(high: bv8, low: bv8): bv16 { ((high as bv16) << 8) | (low as bv16) }

  /** The bytes of a frame on the air. */
  lemma FrameBytes(h: Headers, data: seq<bv8>)
    requires |data| <= 60
    ensures
      var f, n := FrameOf(h, data), |data|;
      && |f| == n + 7 && NatOf(f[0]) == n + 7 && f[1..5] == [h.to, h.from, h.id, h.flags] && f[5..n + 5] == data
      && Crc.Complement(TwoOctets(f[n + 6], f[n + 5])) == Crc.Over(0xffff, f[..n + 5])
  {
    hide Crc.Over, TwoOctets;
    var f, n, body := FrameOf(h, data), |data|, Body(h, data);
    assert f[..n + 5] == body && f[1..5] == body[1..5] && f[5..n + 5] == body[5..] == data;
    assert body[0] == ByteOf(n + 7);
    hide ByteOf, Body, Crc.Lo8, Crc.Hi8, Crc.Complement;
    TwoBytes(Crc.Complement(Crc.Over(0xffff, body)));
    TwoBytes(Crc.Over(0xffff, body));
    CountByte(n + 7);
  }

  lemma TwoBytes(x: bv16)
    ensures TwoOctets(Crc.Hi8(x), Crc.Lo8(x)) == x && Crc.Complement(Crc.Complement(x)) == x
  {
  }

  /** `send` takes every message of up to 60 octets, and leaves everything alone for a longer one. */
  lemma SendTakesIff(a: Ask, data: seq<bv8>)
    requires a.mode != Tx
    ensures Send(a, data).1 <==> |data| <= 60
    ensures |data| > 60 ==> Send(a, data).0 == a
  {
  }

  /** Both drivers tick together; the receiver samples the level the transmitter last wrote. */
  function Lockstep(s: Ask, r: Ask, n: nat): (Ask, Ask)
    requires s.Consistent() && r.Consistent()
    decreases n
  {
    if n == 0 then (s, r) else
    TickConsistent(s, false);
    var s' := Tick(s, false);
    TickConsistent(r, s'.line);
    Lockstep(s', Tick(r, s'.line), n - 1)
  }

  lemma {:induction false} LockstepRuns(s: Ask, r: Ask, n: nat)
    requires s.Consistent() && r.Consistent()
    ensures
      var (t, levels) := TransmitRun(s, n);
      Lockstep(s, r, n) == (t, ReceiveRun(r, levels))
    decreases n
  {
    hide Tick;
    if n > 0 {
      TickConsistent(s, false);
      var s' := Tick(s, false);
      TickConsistent(r, s'.line);
      LockstepRuns(s', Tick(r, s'.line), n - 1);
      var levels := TransmitRun(s', n - 1).1;
      assert ([s'.line] + levels)[1..] == levels;
    }
  }

  lemma SendStarts(s: Ask, data: seq<bv8>)
    requires s.Consistent() && s.mode != Tx && |data| <= 60
    ensures
      var a := Send(s, data).0;
      && Send(s, data).1 && AtBit(a, 0, 0) && |a.tx.symbols| == 22 + 2 * |data|
      && LineBits(a.tx.symbols) == Transmission(18, FrameOf(s.txHeaders, data))
  {
    hide Crc.Over, FrameOf, LineBits, Encode, F.Pairs;
    var frame := FrameOf(s.txHeaders, data);
    FrameIsGood(s.txHeaders, data);
    F.PreambleBits();
    LineBitsConcat(PREAMBLE, Encode(frame));
  }

  function TicksFor(data: seq<bv8>): nat { 48 * (22 + 2 * |data|) + 1 }

  function Outcome(s: Ask, r: Ask, data: seq<bv8>, size: nat): Received {
    if r.promiscuous || s.txHeaders.to == r.address || s.txHeaders.to == 0xff then
      Message(s.txHeaders, data[..if size > |data| then |data| else size])
    else Nothing
  }

  /** From any receiver in lock and outside a frame, whatever its register holds: a message accepted by `send`
      is returned by `recv` with the same headers and payload if it is addressed to the receiver, and not otherwise. */
  lemma EndToEnd(s: Ask, r: Ask, data: seq<bv8>, size: nat)
    requires s.Consistent() && s.mode != Tx && |data| <= 60
    requires r.Consistent() && r.mode == Rx && !r.framer.active && !r.valid && Pll.Locked(r.pll)
    ensures
      var (a, ok) := Send(s, data);
      ok && a.Consistent()
      && var (t, u) := Lockstep(a, r, TicksFor(data));
      t.mode == Idle && u.mode == Idle && u.framer.full && |u.framer.buf| >= 7
      && Recv(u, size).1 == Outcome(s, r, data, size)
  {
    hide Send, FrameOf, Transmission, TransmitRun, ReceiveRun, Recv, Pll.Slice, Lockstep;
    var a := Send(s, data).0;
    var frame := FrameOf(s.txHeaders, data);
    SendStarts(s, data);
    TransmitAll(a);
    LockstepRuns(a, r, TicksFor(data));
    FrameIsGood(s.txHeaders, data);
    ReceiverGets(r, 18, frame);
    var u := Lockstep(a, r, TicksFor(data)).1;
    RecvFrame(u, s.txHeaders, data, size);
  }

  // ---------------------------------------------------------------- from any phase

  lemma {:induction false} PairsAlternate(last: bool, n: nat)
    requires last
    ensures Pll.Alternates(last, F.Pairs(n))
  {
    if n > 0 {
      PairsAlternate(true, n - 1);
      assert F.Pairs(n)[1..][1..] == F.Pairs(n - 1);
    }
  }

  /** Twelve training bits bring the loop into lock from any phase. */
  lemma TrainingLocks(p: Pll.Pll)
    requires p.ramp < Pll.RAMP_LEN
    ensures Pll.Locked(Pll.Run(p, Pll.Slice(F.Pairs(6))).0)
  {
    hide Pll.Run, Pll.Slice, F.Pairs, Pll.Step;
    var bs := F.Pairs(6);
    FirstTrainingBit();
    PairsAlternate(true, 6);
    if p.last {
      Pll.Acquire(p, bs);
    } else {
      SliceFirst(bs);
      var q := Pll.Run(p, Pll.Hold(false, 8)).0;
      Pll.RunConcat(p, Pll.Hold(false, 8), Pll.Slice(bs[1..]));
      Pll.FirstSample(p, false);
      Pll.RampInRange(p, false);
      Pll.RestOfBit(Pll.Step(p, false).0);
      Pll.Acquire(q, bs[1..]);
    }
  }

  lemma FirstTrainingBit()
    ensures F.Pairs(6)[0] == false
  {
  }

  lemma {:induction false} LevelsLength(a: Ask, n: nat)
    requires a.Consistent()
    ensures |TransmitRun(a, n).1| == n
    decreases n
  {
    if n > 0 {
      TransmitFirst(a, n);
      LevelsLength(Tick(a, false), n - 1);
    }
  }

  lemma {:induction false} SliceConcat(s: seq<bool>, t: seq<bool>)
    ensures Pll.Slice(s + t) == Pll.Slice(s) + Pll.Slice(t)
    decreases s
  {
    if s == [] {
      assert s + t == t;
    } else {
      assert (s + t)[1..] == s[1..] + t;
      SliceConcat(s[1..], t);
    }
  }

  /** The first twelve bits of a transmission, seen on their own. */
  lemma TransmissionSplit(a: Ask, frame: seq<bv8>, n: nat)
    requires AtBit(a, 0, 0) && LineBits(a.tx.symbols) == Transmission(18, frame) && n == 48 * |a.tx.symbols| + 1
    ensures TransmitRun(a, 96).1 == Pll.Slice(F.Pairs(6))
    ensures n >= 96 && TransmitRun(a, n).1 == Pll.Slice(F.Pairs(6)) + (Pll.Slice(Transmission(12, frame)) + [false])
  {
    hide TransmitRun, Pll.Slice, F.Pairs, LineBits, Encode;
    TransmitAll(a);
    F.PairsSplit(6, 12);
    assert Transmission(18, frame) == F.Pairs(6) + Transmission(12, frame);
    SliceConcat(F.Pairs(6), Transmission(12, frame));
    var head, tail := Pll.Slice(F.Pairs(6)), Pll.Slice(Transmission(12, frame)) + [false];
    assert TransmitRun(a, n).1 == head + tail;
    assert |LineBits(a.tx.symbols)| >= 12;
    TransmitSplit(a, 96, n - 96);
    LevelsLength(a, 96);
    assert TransmitRun(a, 96).1 == TransmitRun(a, n).1[..96] == head;
  }

  /** From any phase of the loop: if the first twelve training bits leave the receiver outside a frame,
      the loop is in lock and the message arrives as from a locked receiver. */
  lemma EndToEndFromAnyPhase(s: Ask, r: Ask, data: seq<bv8>, size: nat)
    requires s.Consistent() && s.mode != Tx && |data| <= 60
    requires r.Consistent() && r.mode == Rx && !r.valid
    requires
      var a := Send(s, data).0;
      a.Consistent() && var u := Lockstep(a, r, 96).1; u.mode == Rx && !u.framer.active
    ensures
      var (t, u) := Lockstep(Send(s, data).0, r, TicksFor(data));
      t.mode == Idle && u.mode == Idle && u.framer.full && |u.framer.buf| >= 7
      && Recv(u, size).1 == Outcome(s, r, data, size)
  {
    hide Send, FrameOf, Transmission, TransmitRun, ReceiveRun, Recv, Pll.Slice, Lockstep, F.Pairs, LineBits;
    var a := Send(s, data).0;
    var frame := FrameOf(s.txHeaders, data);
    SendStarts(s, data);
    TransmitAll(a);
    TransmissionSplit(a, frame, TicksFor(data));
    LockstepRuns(a, r, TicksFor(data));
    LockstepRuns(a, r, 96);
    FrameIsGood(s.txHeaders, data);
    var head, tail := Pll.Slice(F.Pairs(6)), Pll.Slice(Transmission(12, frame)) + [false];
    var early := ReceiveRun(r, head);
    ReceiveRunConcat(r, head, tail);
    ReceiveIsFraming(r, head);
    TrainingLocks(r.pll);
    ReceiverGets(early, 12, frame);
    var u := Lockstep(a, r, TicksFor(data)).1;
    RecvFrame(u, s.txHeaders, data, size);
  }

  // ---------------------------------------------------------------- after silence

  /** Twelve bit times of a quiet line empty the register and change nothing else. */
  lemma SilenceClears(r: Ask)
    requires r.Consistent() && r.mode == Rx && !r.framer.active && !r.pll.last && r.pll.integrator == 0
    ensures ReceiveRun(r, Pll.Slice(F.Zeros(12))) == r.(framer := r.framer.(bits := 0))
  {
    hide ReceiveRun, Pll.Slice, F.Run, Pll.Run;
    QuietRun(r.pll, 12);
    ReceiveIsFraming(r, Pll.Slice(F.Zeros(12)));
    F.ZerosRun(r.framer, 12);
    KeepsTheRest(r, Pll.Slice(F.Zeros(12)));
  }

  lemma {:induction false} QuietRun(p: Pll.Pll, n: nat)
    requires p.ramp < Pll.RAMP_LEN && !p.last && p.integrator == 0
    ensures Pll.Run(p, Pll.Slice(F.Zeros(n))) == (p, F.Zeros(n))
    decreases n
  {
    hide Pll.Run, Pll.Hold;
    if n == 0 {
      Pll.EmptyRun(p);
    } else {
      QuietRun(p, n - 1);
      Pll.QuietBit(p);
      Pll.RunConcat(p, Pll.Hold(false, 8), Pll.Slice(F.Zeros(n - 1)));
    }
  }

  lemma {:induction false} KeepsTheRest(a: Ask, samples: seq<bool>)
    requires a.Consistent() && a.mode == Rx
    ensures
      var b := ReceiveRun(a, samples);
      b.mode == Rx ==> b == a.(pll := b.pll, framer := b.framer)
    decreases samples
  {
    hide Pll.Step, F.Step;
    if samples != [] {
      TickConsistent(a, samples[0]);
      var c := Tick(a, samples[0]);
      if c.mode == Rx { KeepsTheRest(c, samples[1..]); } else { IdleRun(c, samples[1..]); }
    }
  }

  /** Fourteen bit times of a quiet line bring any receiver outside a frame to rest, unless its register is one bit
      short of the start symbol: empty register, empty integrator, nothing else changed but the phase of the loop. */
  lemma SilenceSettles(r: Ask)
    requires r.Consistent() && r.mode == Rx && !r.framer.active && !F.OneShort(r.framer.bits)
    ensures
      var u := ReceiveRun(r, Pll.Slice(F.Zeros(14)));
      u == r.(pll := u.pll, framer := r.framer.(bits := 0)) && !u.pll.last && u.pll.integrator == 0
  {
    var two := Pll.Hold(false, 8) + Pll.Hold(false, 8);
    TwoThenTwelve();
    hide ReceiveRun, Pll.Slice, F.Run, Pll.Run, F.Zeros, Pll.Hold, F.OneShort;
    ReceiveRunConcat(r, two, Pll.Slice(F.Zeros(12)));
    Pll.QuietSettles(r.pll);
    ReceiveIsFraming(r, two);
    F.SettleRun(r.framer, Pll.Run(r.pll, two).1);
    KeepsTheRest(r, two);
    SilenceClears(ReceiveRun(r, two));
  }

  lemma TwoThenTwelve()
    ensures Pll.Slice(F.Zeros(14)) == Pll.Hold(false, 8) + Pll.Hold(false, 8) + Pll.Slice(F.Zeros(12))
  {
    hide Pll.Hold;
    ZeroFirst(13);
    ZeroFirst(12);
  }

  lemma ZeroFirst(n: nat)
    ensures Pll.Slice(F.Zeros(n + 1)) == Pll.Hold(false, 8) + Pll.Slice(F.Zeros(n))
  {
    hide Pll.Hold;
    assert F.Zeros(n + 1)[1..] == F.Zeros(n);
  }

  /** After silence: whatever the phase of the loop, a receiver outside a frame, with an empty register and a quiet
      line, gets the message as a locked one does. */
  lemma EndToEndAfterSilence(s: Ask, r: Ask, data: seq<bv8>, size: nat)
    requires s.Consistent() && s.mode != Tx && |data| <= 60
    requires r.Consistent() && r.mode == Rx && !r.framer.active && !r.valid
    requires r.framer.bits == 0 && !r.pll.last && r.pll.integrator == 0
    ensures
      var (a, ok) := Send(s, data);
      ok && a.Consistent()
      && var (t, u) := Lockstep(a, r, TicksFor(data));
      t.mode == Idle && u.mode == Idle && u.framer.full && |u.framer.buf| >= 7
      && Recv(u, size).1 == Outcome(s, r, data, size)
  {
    hide Send, FrameOf, TransmitRun, ReceiveRun, Recv, Pll.Slice, Lockstep, F.Pairs, LineBits, Outcome, Transmission;
    var a := Send(s, data).0;
    SendStarts(s, data);
    TransmissionSplit(a, FrameOf(s.txHeaders, data), TicksFor(data));
    LockstepRuns(a, r, 96);
    StaysOutside(r);
    EndToEndFromAnyPhase(s, r, data, size);
  }

  lemma StaysOutside(r: Ask)
    requires r.Consistent() && r.mode == Rx && !r.framer.active
    requires r.framer.bits == 0 && !r.pll.last && r.pll.integrator == 0
    ensures
      var u := ReceiveRun(r, Pll.Slice(F.Pairs(6)));
      u.mode == Rx && !u.framer.active
  {
    hide ReceiveRun, Pll.Slice, F.Pairs, F.Run, Pll.Run, Pll.NoPair;
    PairsAlternate(true, 6);
    ReceiveIsFraming(r, Pll.Slice(F.Pairs(6)));
    Pll.TrainingAfterSilence(r.pll, F.Pairs(6));
    F.SparseRun(r.framer, Pll.Run(r.pll, Pll.Slice(F.Pairs(6))).1);
  }

  /** The same from any receiver outside a frame whose register is not one bit short of the start symbol, once the
      line has been quiet for fourteen bit times. */
  lemma EndToEndAfterFourteenBits(s: Ask, r: Ask, data: seq<bv8>, size: nat)
    requires s.Consistent() && s.mode != Tx && |data| <= 60
    requires r.Consistent() && r.mode == Rx && !r.framer.active && !r.valid && !F.OneShort(r.framer.bits)
    ensures
      var q := ReceiveRun(r, Pll.Slice(F.Zeros(14)));
      var a := Send(s, data).0;
      q.Consistent() && a.Consistent()
      && var (t, u) := Lockstep(a, q, TicksFor(data));
      u.mode == Idle && u.framer.full && |u.framer.buf| >= 7 && Recv(u, size).1 == Outcome(s, r, data, size)
  {
    SilenceSettles(r);
    var q := ReceiveRun(r, Pll.Slice(F.Zeros(14)));
    ReceiveRunConcat(r, Pll.Slice(F.Zeros(14)), []);
    hide ReceiveRun, Send, Lockstep, Recv, Pll.Slice, F.OneShort, Ask.Consistent;
    EndToEndAfterSilence(s, q, data, size);
    SameOutcome(s, r, q, data, size);
  }

  lemma SameOutcome(s: Ask, r: Ask, q: Ask, data: seq<bv8>, size: nat)
    requires q.promiscuous == r.promiscuous && q.address == r.address
    ensures Outcome(s, q, data, size) == Outcome(s, r, data, size)
  {
  }
}
