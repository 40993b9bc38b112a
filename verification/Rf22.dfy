/** The RF22's fragmentation of messages through its two 64-octet FIFOs. */
module Rf22 {

  const FIFO_SIZE: nat := 64
  const TX_ALMOST_EMPTY: nat := 4
  const RX_ALMOST_FULL: nat := 55

  /** The most that is written to the transmit FIFO at a time. */
  const FRAGMENT: nat := FIFO_SIZE - TX_ALMOST_EMPTY - 1

  type Octets = seq<bv8>

  datatype Mode = Idle | Rx | Tx

  /** The driver: the octets in use in its one buffer, how many of them have gone to the transmit FIFO, whether they
      are a received message. The radio: the transmit FIFO, the length of the packet, its octets on the air so far;
      the receive FIFO, whether a packet is coming in, its octets so far, whether the interrupts for its preamble and
      for an overflow of the FIFO are still to be handled. Last, for the record: the messages accepted for sending
      and the packets completed on the air; the packets that came in, valid and of legal length, and those collected
      by `recv`. */
  datatype State = State(
    mode: Mode, buf: Octets, sentIndex: nat, rxBufValid: bool,
    txFifo: Octets, packetLength: nat, onAir: Octets,
    rxFifo: Octets, hearing: bool, received: Octets, preamble: bool, overflow: bool,
    accepted: seq<Octets>, aired: seq<Octets>, heard: seq<Octets>, collected: seq<Octets>)

  // ---------------------------------------------------------------- the driver's functions

  function SendNextFragment(s: State): (r: State)
    ensures r.accepted == s.accepted && r.heard == s.heard && r.received == s.received
  {
    if s.sentIndex < |s.buf| then
      var len := if |s.buf| - s.sentIndex > FRAGMENT then FRAGMENT else |s.buf| - s.sentIndex;
      s.(txFifo := s.txFifo + s.buf[s.sentIndex..s.sentIndex + len], sentIndex := s.sentIndex + len)
    else s
  }

  /** Reading more than there is gives octets of no meaning, here zeros. */
  function BurstRead(fifo: Octets, n: nat): (r: (Octets, Octets))
    ensures |r.0| == n
  {
    if n <= |fifo| then (fifo[..n], fifo[n..]) else (fifo + seq(n - |fifo|, _ => 0), [])
  }

  function ReadNextFragment(s: State, max: nat): (r: State)
    ensures r.accepted == s.accepted && r.heard == s.heard && r.received == s.received
  {
    if |s.buf| + RX_ALMOST_FULL > max then s else
    var (got, rest) := BurstRead(s.rxFifo, RX_ALMOST_FULL);
    s.(buf := s.buf + got, rxFifo := rest)
  }

  function ClearRxBuf(s: State): State { s.(buf := [], rxBufValid := false) }

  function ResetRxFifo(s: State): State { s.(rxFifo := [], rxBufValid := false) }

  /** A transmitter that is started begins a packet. */
  function SetModeTx(s: State): State {
    if s.mode == Tx then s else ResetRxFifo(s).(mode := Tx, hearing := false, onAir := [])
  }

  function StartTransmit(s: State): (r: State)
    ensures r.accepted == s.accepted && r.heard == s.heard && r.received == s.received
  {
    SetModeTx(SendNextFragment(s).(packetLength := |s.buf|))
  }

  function RestartTransmit(s: State): (r: State)
    ensures r.accepted == s.accepted && r.heard == s.heard && r.received == s.received
  {
    StartTransmit(s.(mode := Idle, sentIndex := 0))
  }

  /** Whether the message is taken, and what becomes of it. */
  function Send(s: State, data: Octets, max: nat): (bool, State) {
    var cleared := s.(buf := [], sentIndex := 0);
    if data == [] || |data| > max then (false, cleared)
    else (true, StartTransmit(cleared.(buf := data, accepted := s.accepted + [data])))
  }

  /** The message, if there is one. */
  function Recv(s: State): (Octets, State)
    requires s.rxBufValid
  {
    (s.buf, ClearRxBuf(s).(collected := s.collected + [s.buf]))
  }

  // ---------------------------------------------------------------- the interrupt handler

  datatype Flags = Flags(
    ffError: bool, txAlmostEmpty: bool, rxAlmostFull: bool, packetSent: bool, packetValid: bool, crcError: bool,
    preamble: bool)

  function OnFifoError(s: State): (r: State)
    ensures r.accepted == s.accepted && r.heard == s.heard && r.received == s.received
  {
    var reset := s.(txFifo := [], rxFifo := []);
    match s.mode
    case Tx => RestartTransmit(reset)
    case Rx => ClearRxBuf(reset)
    case Idle => reset
  }

  function OnPacketSent(s: State): (r: State)
    ensures r.accepted == s.accepted && r.heard == s.heard && r.received == s.received
  {
    s.(mode := Idle, aired := s.aired + [s.onAir])
  }

  /** A length the buffer cannot hold, or less than has been read already: the handler stops there. */
  predicate BadLength(s: State, len: nat, max: nat) { len > max || len < |s.buf| }

  function OnPacketValid(s: State, len: nat, max: nat): (r: State)
    ensures r.accepted == s.accepted && r.heard == s.heard && r.received == s.received
  {
    var done := s.(mode := Idle, hearing := false);
    if BadLength(s, len, max) then ClearRxBuf(done) else
    var (got, rest) := BurstRead(s.rxFifo, len - |s.buf|);
    done.(buf := s.buf + got, rxFifo := rest, rxBufValid := true)
  }

  /** The radio is turned to reception anew. */
  function OnCrcError(s: State): (r: State)
    ensures r.accepted == s.accepted && r.heard == s.heard && r.received == s.received
  {
    ResetRxFifo(ClearRxBuf(s)).(mode := Rx, hearing := false)
  }

  function OnPreamble(s: State): (r: State)
    ensures r.accepted == s.accepted && r.heard == s.heard && r.received == s.received
  {
    ClearRxBuf(ResetRxFifo(s))
  }

  /** The parts of the handler that follow the FIFO error, in their order; `len` is what the packet length register
      holds. */
  function HandleOthers(s: State, f: Flags, len: nat, max: nat): (r: State)
    ensures r.accepted == s.accepted && r.heard == s.heard && r.received == s.received
  {
    var s2 := if f.txAlmostEmpty then SendNextFragment(s) else s;
    var s3 := if f.rxAlmostFull then ReadNextFragment(s2, max) else s2;
    var s4 := if f.packetSent then OnPacketSent(s3) else s3;
    var s5 := if f.packetValid then OnPacketValid(s4, len, max) else s4;
    if f.packetValid && BadLength(s4, len, max) then s5 else
    var s6 := if f.crcError then OnCrcError(s5) else s5;
    if f.preamble then OnPreamble(s6) else s6
  }

  function HandleInterrupt(s: State, f: Flags, len: nat, max: nat): (r: State)
    ensures r.accepted == s.accepted && r.heard == s.heard && r.received == s.received
  {
    HandleOthers(if f.ffError then OnFifoError(s) else s, f, len, max)
  }

  // ---------------------------------------------------------------- steps

  datatype Event =
    | Sending(data: Octets)      // `send`, once no transmission is under way
    | Listen                     // `available` puts an idle radio into receive mode
    | Collect                    // `recv`
    | Drain                      // the radio takes an octet from the transmit FIFO
    | Preamble                   // a packet begins to come in
    | Fill(b: bv8)               // an octet comes in and goes to the receive FIFO, or is lost if that is full
    | Interrupt(f: Flags)

  /** When the radio raises which flags. A preamble and an overflow stay flagged until an interrupt is handled. */
  predicate Raised(s: State, f: Flags) {
    && (s.overflow ==> f.ffError)
    && (f.txAlmostEmpty ==> s.mode == Tx && |s.txFifo| <= TX_ALMOST_EMPTY)
    && (f.rxAlmostFull ==> s.mode == Rx && s.hearing && |s.rxFifo| >= RX_ALMOST_FULL)
    && (f.packetSent ==> s.mode == Tx && |s.onAir| == s.packetLength)
    && (f.packetValid ==> s.mode == Rx && s.hearing)
    && (f.crcError ==> s.mode == Rx)
    && f.preamble == s.preamble
  }

  predicate Enabled(s: State, e: Event) {
    match e
    case Sending(_) => s.mode != Tx
    case Listen => s.mode == Idle && !s.rxBufValid
    case Collect => s.rxBufValid
    case Drain => s.mode == Tx && s.txFifo != [] && |s.onAir| < s.packetLength
    case Preamble => s.mode == Rx
    case Fill(_) => s.mode == Rx && s.hearing
    case Interrupt(f) => Raised(s, f)
  }

  /** The interrupt says that a packet has come in to be delivered. */
  predicate Completes(f: Flags, received: Octets, max: nat) {
    f.packetValid && !f.crcError && |received| <= max
  }

  /** Reading the flags clears them. */
  function Flagged(s: State, f: Flags, max: nat): State {
    s.(preamble := false, overflow := false,
       heard := if Completes(f, s.received, max) then s.heard + [s.received] else s.heard)
  }

  function Filled(s: State, b: bv8): State {
    var t := s.(received := s.received + [b]);
    if |s.rxFifo| < FIFO_SIZE then t.(rxFifo := s.rxFifo + [b]) else t.(overflow := true)
  }

  function Step(s: State, e: Event, max: nat): State
    requires Enabled(s, e)
  {
    match e
    case Sending(data) => Send(s, data, max).1
    case Listen => s.(mode := Rx)
    case Collect => Recv(s).1
    case Drain => s.(txFifo := s.txFifo[1..], onAir := s.onAir + [s.txFifo[0]])
    case Preamble => s.(hearing := true, received := [], preamble := true)
    case Fill(b) => Filled(s, b)
    case Interrupt(f) => HandleInterrupt(Flagged(s, f, max), f, |s.received|, max)
  }

  // ---------------------------------------------------------------- conservation

  predicate Bounds(s: State, max: nat) { max <= 255 && |s.buf| <= max && |s.rxFifo| <= FIFO_SIZE }

  /** What of the buffer has not gone to the FIFO. */
  function Unsent(s: State): Octets { if s.sentIndex <= |s.buf| then s.buf[s.sentIndex..] else [] }

  /** The message under way: on the air, in the FIFO, in the buffer. */
  function Going(s: State): Octets { s.onAir + s.txFifo + Unsent(s) }

  /** Nothing is lost between the messages accepted and the air. The buffer has the whole message or nothing. */
  predicate SendInv(s: State, max: nat) {
    && Bounds(s, max) && s.sentIndex <= max && |s.txFifo| <= FIFO_SIZE
    && match s.mode
       case Tx =>
         && !s.rxBufValid && s.packetLength == |Going(s)| > 0 && s.accepted == s.aired + [Going(s)]
         && (s.buf == [] || (s.buf == Going(s) && s.sentIndex <= |s.buf|))
       case _ => s.txFifo == [] && s.accepted == s.aired
  }

  /** Nothing is lost between the packets coming in and `recv`. Before the preamble's interrupt is handled, what
      the driver has may be from an earlier packet. */
  predicate ReceiveInv(s: State, max: nat) {
    && Bounds(s, max)
    && (s.hearing ==> s.mode == Rx) && (s.preamble ==> s.mode == Tx || s.hearing)
    && s.heard == s.collected + (if s.rxBufValid then [s.buf] else [])
    && (s.rxBufValid ==> s.mode == Idle)
    && (s.hearing && !s.preamble ==> |s.buf| + |s.rxFifo| <= |s.received|)
    && (Tracks(s) ==> s.buf + s.rxFifo == s.received)
  }

  /** The octets of the packet coming in are to be with the driver. */
  predicate Tracks(s: State) { s.hearing && !s.preamble && !s.overflow }

  /** What `BurstRead` makes of an empty FIFO. */
  function Meaningless(n: nat): (r: Octets)
    ensures |r| == n
  {
    seq(n, _ => 0)
  }

  /** How much of the packet the handler reads from a FIFO just cleared, other than at the packet's end. */
  function ReadEmpty(f: Flags, max: nat): nat { if f.rxAlmostFull && RX_ALMOST_FULL <= max then RX_ALMOST_FULL else 0 }

  /** The interrupts after which what is sent is accounted for. A FIFO error must find the message in the buffer, must
      not come together with the end of the packet, and what is then loaded must fit the FIFO. A preamble that came
      before sending began and is handled only now must find all of the message in the FIFO. */
  predicate SendHarmless(s: State, f: Flags) {
    s.mode == Tx ==>
      if f.ffError then
        && s.buf != [] && !f.packetSent && (f.txAlmostEmpty ==> |s.buf| <= FIFO_SIZE)
        && (f.preamble && !f.txAlmostEmpty ==> |s.buf| <= FRAGMENT)
      else f.preamble && !f.packetSent ==> |Unsent(s)| <= if f.txAlmostEmpty then FRAGMENT else 0
  }

  /** The interrupts after which what comes in is. A packet taken for valid must have its preamble handled before,
      and have no FIFO error; a packet that goes on must have no octets when either is handled. The exception are the
      octets that reading an empty FIFO happens to yield. */
  predicate ReceiveHarmless(s: State, f: Flags, max: nat) {
    s.hearing && !f.crcError ==>
      if f.packetValid then
        |s.received| <= max ==> !f.preamble && (f.ffError ==> s.received == Meaningless(|s.received|))
      else if f.preamble then s.received == []
      else f.ffError ==> s.received == Meaningless(ReadEmpty(f, max))
  }

  predicate KeepsSent(s: State, e: Event) { e.Interrupt? ==> SendHarmless(s, e.f) }

  /** `send` must not come upon a message not collected or, when it is refused, upon octets received. */
  predicate KeepsReceived(s: State, e: Event, max: nat) {
    match e
    case Interrupt(f) => ReceiveHarmless(s, f, max)
    case Sending(data) => if Refused(data, max) then s.buf == [] || !(s.rxBufValid || Tracks(s)) else !s.rxBufValid
    case _ => true
  }

  predicate Refused(data: Octets, max: nat) { data == [] || |data| > max }

  // ---------------------------------------------------------------- sending

  lemma Regroup(a: Octets, b: Octets, c: Octets, d: Octets)
    ensures a + b + (c + d) == a + (b + c) + d
  {
  }

  lemma FragmentKeeps(s: State, max: nat)
    requires SendInv(s, max) && s.mode == Tx
    requires |s.txFifo| <= TX_ALMOST_EMPTY || |s.txFifo| + |Unsent(s)| <= FIFO_SIZE
    ensures
      var r := SendNextFragment(s);
      && SendInv(r, max) && r.mode == Tx && r.onAir == s.onAir && r.buf == s.buf && Going(r) == Going(s)
      && |Unsent(r)| == if |Unsent(s)| <= FRAGMENT then 0 else |Unsent(s)| - FRAGMENT
  {
    if s.sentIndex < |s.buf| {
      var len := if |s.buf| - s.sentIndex > FRAGMENT then FRAGMENT else |s.buf| - s.sentIndex;
      var fragment, rest := s.buf[s.sentIndex..s.sentIndex + len], s.buf[s.sentIndex + len..];
      assert Unsent(s) == fragment + rest;
      Regroup(s.onAir, s.txFifo, fragment, rest);
    }
  }

  /** A transmission starts, or starts again, with the first fragment and nothing on the air. */
  lemma StartsFromFirst(s: State, max: nat)
    requires Bounds(s, max) && s.buf != [] && s.sentIndex == 0 && s.txFifo == [] && s.mode != Tx
    requires s.accepted == s.aired + [s.buf]
    ensures
      var r := StartTransmit(s);
      && SendInv(r, max) && r.mode == Tx && r.buf == s.buf == Going(r) && r.onAir == []
      && r.txFifo == s.buf[..if |s.buf| < FRAGMENT then |s.buf| else FRAGMENT] && r.sentIndex == |r.txFifo|
  {
    var n := if |s.buf| < FRAGMENT then |s.buf| else FRAGMENT;
    assert s.buf[0..0 + n] == s.buf[..n] && [] + s.buf[..n] + s.buf[n..] == s.buf;
  }

  lemma SentKeeps(s: State, max: nat)
    requires SendInv(s, max) && s.mode == Tx && |s.onAir| == s.packetLength
    ensures s.onAir == Going(s) && s.txFifo == [] && Unsent(s) == [] && SendInv(OnPacketSent(s), max)
  {
    assert |s.txFifo + Unsent(s)| == 0;
    assert s.onAir + s.txFifo + Unsent(s) == s.onAir;
  }

  /** A FIFO error while sending starts the message again, from its first octet. */
  lemma FifoErrorKeeps(s: State, max: nat)
    requires SendInv(s, max) && s.mode == Tx && s.buf != []
    ensures
      var r := OnFifoError(s);
      && SendInv(r, max) && r.mode == Tx && r.onAir == [] && r.buf == s.buf == Going(r) && r.sentIndex == |r.txFifo|
      && r.txFifo == s.buf[..if |s.buf| < FRAGMENT then |s.buf| else FRAGMENT]
  {
    StartsFromFirst(s.(txFifo := [], rxFifo := [], mode := Idle, sentIndex := 0), max);
  }

  /** A second fragment fits behind the first exactly when the message fits the FIFO. */
  lemma SecondFragmentIff(s: State, max: nat)
    requires SendInv(s, max) && s.mode == Tx && s.buf == Going(s)
    requires s.sentIndex == if |s.buf| < FRAGMENT then |s.buf| else FRAGMENT
    requires s.txFifo == s.buf[..s.sentIndex]
    ensures |SendNextFragment(s).txFifo| <= FIFO_SIZE <==> |s.buf| <= FIFO_SIZE
    ensures |s.buf| <= FIFO_SIZE ==> SendInv(SendNextFragment(s), max) && Unsent(SendNextFragment(s)) == []
    ensures SendNextFragment(s).txFifo != [] && SendNextFragment(s).mode == Tx
  {
    if |s.buf| <= FIFO_SIZE { FragmentKeeps(s, max); }
  }

  /** What becomes of the message when reception is ended or starts anew in the midst of sending. */
  lemma PreambleCutsIff(s: State, max: nat)
    requires SendInv(s, max) && s.mode == Tx
    ensures SendInv(OnPreamble(s), max) <==> Unsent(s) == []
  {
    var r := OnPreamble(s);
    assert Unsent(r) == [] && Going(r) == s.onAir + s.txFifo;
    if Unsent(s) != [] {
      assert |Going(r)| < |Going(s)|;
    }
  }

  /** The flags that are raised while sending. */
  predicate RaisedSending(s: State, f: Flags) {
    && s.mode == Tx && !f.rxAlmostFull && !f.packetValid && !f.crcError
    && (f.txAlmostEmpty ==> |s.txFifo| <= TX_ALMOST_EMPTY) && (f.packetSent ==> |s.onAir| == s.packetLength)
  }

  lemma PlainSendIff(s: State, f: Flags, len: nat, max: nat)
    requires SendInv(s, max) && RaisedSending(s, f) && !f.ffError
    ensures SendInv(HandleOthers(s, f, len, max), max) <==> SendHarmless(s, f)
  {
    var s2 := if f.txAlmostEmpty then SendNextFragment(s) else s;
    if f.txAlmostEmpty { FragmentKeeps(s, max); }
    if f.packetSent {
      SentKeeps(s2, max);
    } else if f.preamble {
      PreambleCutsIff(s2, max);
    }
    hide SendNextFragment, Going, Unsent;
  }

  /** The rest of an interrupt that began with a restart. */
  lemma RestartedIff(s: State, f: Flags, len: nat, max: nat)
    requires SendInv(s, max) && s.mode == Tx && s.onAir == [] && s.buf == Going(s) && s.buf != []
    requires !f.rxAlmostFull && !f.packetValid && !f.crcError
    requires s.sentIndex == if |s.buf| < FRAGMENT then |s.buf| else FRAGMENT
    requires s.txFifo == s.buf[..s.sentIndex]
    ensures SendInv(HandleOthers(s, f, len, max), max) <==>
      && !f.packetSent && (f.txAlmostEmpty ==> |s.buf| <= FIFO_SIZE)
      && (f.preamble && !f.txAlmostEmpty ==> |s.buf| <= FRAGMENT)
  {
    var s2 := if f.txAlmostEmpty then SendNextFragment(s) else s;
    SecondFragmentIff(s, max);
    assert |Unsent(s)| == |s.buf| - s.sentIndex;
    assert HandleOthers(s, f, len, max) == HandleOthers(s2, f.(txAlmostEmpty := false), len, max);
    hide SendInv, SendNextFragment, Going, Unsent, HandleOthers;
    LoadedIff(s2, f.(txAlmostEmpty := false), len, max);
  }

  lemma LoadedIff(s: State, f: Flags, len: nat, max: nat)
    requires s.mode == Tx && s.txFifo != [] && (SendInv(s, max) || |s.txFifo| > FIFO_SIZE)
    requires !f.txAlmostEmpty && !f.rxAlmostFull && !f.packetValid && !f.crcError
    ensures SendInv(HandleOthers(s, f, len, max), max) <==>
      SendInv(s, max) && !f.packetSent && (f.preamble ==> Unsent(s) == [])
  {
    if SendInv(s, max) { PreambleCutsIff(s, max); }
    hide Going, Unsent;
  }

  lemma RestartIff(s: State, f: Flags, len: nat, max: nat)
    requires SendInv(s, max) && RaisedSending(s, f) && f.ffError
    ensures SendInv(HandleInterrupt(s, f, len, max), max) <==> SendHarmless(s, f)
  {
    var s1 := OnFifoError(s);
    if s.buf == [] {
      NothingToRestart(s, f, len, max);
    } else {
      FifoErrorKeeps(s, max);
      hide OnFifoError, SendNextFragment, Going, SendInv;
      RestartedIff(s1, f, len, max);
    }
  }

  lemma NothingToRestart(s: State, f: Flags, len: nat, max: nat)
    requires SendInv(s, max) && RaisedSending(s, f) && f.ffError && s.buf == []
    ensures !SendInv(HandleInterrupt(s, f, len, max), max)
  {
    var s1 := OnFifoError(s);
    assert s1.txFifo == [] && s1.onAir == [] && s1.buf == [] && s1.mode == Tx;
    assert (s.aired + [Going(s)])[|s.aired|] == Going(s) && (s.aired + [[]])[|s.aired|] == [];
    hide OnFifoError, Going;
  }

  /** A FIFO error while sending, with whatever else is flagged. */
  lemma SendingErrorIff(s: State, f: Flags, max: nat)
    requires SendInv(s, max) && Raised(s, f) && f.ffError && s.mode == Tx
    ensures SendInv(Step(s, Interrupt(f), max), max) <==> SendHarmless(s, f)
  {
    var t := Flagged(s, f, max);
    assert SendInv(t, max) && SendHarmless(t, f) == SendHarmless(s, f);
    hide SendInv, SendHarmless, HandleInterrupt;
    RestartIff(t, f, |s.received|, max);
  }

  lemma SendingInterruptIff(s: State, f: Flags, max: nat)
    requires SendInv(s, max) && Raised(s, f) && s.mode == Tx
    ensures SendInv(Step(s, Interrupt(f), max), max) <==> SendHarmless(s, f)
  {
    var t := Flagged(s, f, max);
    assert SendInv(t, max) && SendHarmless(t, f) == SendHarmless(s, f);
    hide SendInv, SendHarmless, HandleOthers;
    if f.ffError { SendingErrorIff(s, f, max); } else { PlainSendIff(t, f, |s.received|, max); }
  }

  /** Nothing is under way. */
  predicate Silent(s: State, max: nat) {
    Bounds(s, max) && s.sentIndex <= max && s.mode != Tx && s.txFifo == [] && s.accepted == s.aired
  }

  lemma ReadSilent(s: State, max: nat)
    requires Silent(s, max)
    ensures Silent(ReadNextFragment(s, max), max)
  {
  }

  lemma ValidSilent(s: State, len: nat, max: nat)
    requires Silent(s, max)
    ensures Silent(OnPacketValid(s, len, max), max)
  {
  }

  lemma QuietSendKeeps(s: State, f: Flags, len: nat, max: nat)
    requires Silent(s, max) && !f.txAlmostEmpty && !f.packetSent
    ensures Silent(HandleInterrupt(s, f, len, max), max)
  {
    var s2 := if f.ffError then OnFifoError(s) else s;
    assert Silent(s2, max);
    ReadSilent(s2, max);
    var s4 := if f.rxAlmostFull then ReadNextFragment(s2, max) else s2;
    ValidSilent(s4, len, max);
    hide OnFifoError, ReadNextFragment, OnPacketValid, BadLength;
  }

  // ---------------------------------------------------------------- receiving

  lemma FragmentReadKeeps(s: State, max: nat)
    requires ReceiveInv(s, max) && s.mode == Rx && s.hearing && |s.rxFifo| >= RX_ALMOST_FULL
    ensures ReceiveInv(ReadNextFragment(s, max), max)
  {
  }

  /** An interrupt for an almost full FIFO takes 55 octets out of it, in their order, when the buffer has room for them;
      so no packet of a legal length overflows a FIFO that is served within 9 octets. */
  lemma FullMakesRoom(s: State, max: nat)
    requires ReceiveInv(s, max) && Tracks(s) && |s.rxFifo| >= RX_ALMOST_FULL && |s.received| <= max
    ensures
      var r := ReadNextFragment(s, max);
      && Tracks(r) && r.received == s.received
      && |r.buf| == |s.buf| + 55 && r.buf == s.received[..|s.buf| + 55]
      && |r.rxFifo| == |s.rxFifo| - 55 && r.rxFifo == s.received[|s.buf| + 55..]
  {
    var n := |s.buf| + 55;
    assert s.received == s.buf + s.rxFifo;
  }

  lemma ValidKeeps(s: State, max: nat)
    requires ReceiveInv(s, max) && s.mode == Rx && Tracks(s) && |s.received| <= max
    ensures
      var r := OnPacketValid(s, |s.received|, max);
      r.mode == Idle && r.rxBufValid && r.buf == s.received && r.rxFifo == [] && !r.hearing
  {
  }

  /** A FIFO error while a packet comes in, with whatever else is flagged. */
  lemma ReceivingErrorIff(s: State, f: Flags, max: nat)
    requires ReceiveInv(s, max) && Raised(s, f) && f.ffError && s.mode == Rx
    ensures ReceiveInv(Step(s, Interrupt(f), max), max) <==> ReceiveHarmless(s, f, max)
    ensures
      var r := Step(s, Interrupt(f), max);
      && r.rxBufValid == (Completes(f, s.received, max) && !f.preamble)
      && (r.rxBufValid ==> r.buf == Meaningless(|s.received|))
  {
    var s1 := OnFifoError(Flagged(s, f, max));
    var s3 := if f.rxAlmostFull then ReadNextFragment(s1, max) else s1;
    assert s3.rxFifo == [] && s3.buf == Meaningless(ReadEmpty(f, max)) && s3.mode == Rx && !s3.rxBufValid;
    assert s1.hearing && !s.preamble ==> |s3.buf| <= |s.received|;
    hide ReadNextFragment, OnFifoError;
    ReadEmptyIff(s, f, s3, max);
  }

  /** What follows the reading, when all that the driver has is meaningless. */
  lemma ReadEmptyIff(s: State, f: Flags, t: State, max: nat)
    requires ReceiveInv(s, max) && Raised(s, f) && f.ffError && s.mode == Rx
    requires t.rxFifo == [] && t.buf == Meaningless(ReadEmpty(f, max)) && t.mode == Rx && !t.rxBufValid
    requires t.hearing == s.hearing && t.received == s.received && !t.preamble && !t.overflow
    requires t.hearing && !s.preamble ==> |t.buf| <= |s.received|
    requires t.heard == Flagged(s, f, max).heard && t.collected == s.collected
    ensures ReceiveInv(HandleOthers(t, f.(rxAlmostFull := false), |s.received|, max), max)
      <==> ReceiveHarmless(s, f, max)
    ensures
      var r := HandleOthers(t, f.(rxAlmostFull := false), |s.received|, max);
      && r.rxBufValid == (Completes(f, s.received, max) && !f.preamble)
      && (r.rxBufValid ==> r.buf == Meaningless(|s.received|))
  {
    var r := HandleOthers(t, f.(rxAlmostFull := false), |s.received|, max);
    if Completes(f, s.received, max) {
      CollectedIff(s.collected, s.received, r.buf);
      assert r.rxBufValid ==> r.buf == Meaningless(|s.received|);
    } else {
      assert !r.rxBufValid && r.heard == r.collected;
    }
  }

  lemma CollectedIff(before: seq<Octets>, a: Octets, b: Octets)
    ensures before + [a] != before && before + [a] != before + []
    ensures before + [a] == before + [b] <==> a == b
  {
    assert (before + [a])[|before|] == a && (before + [b])[|before|] == b;
  }

  lemma PlainReceiveIff(s: State, f: Flags, max: nat)
    requires ReceiveInv(s, max) && Raised(s, f) && !f.ffError && s.mode == Rx
    ensures ReceiveInv(Step(s, Interrupt(f), max), max) <==> ReceiveHarmless(s, f, max)
    ensures
      var r := Step(s, Interrupt(f), max);
      && r.rxBufValid == (Completes(f, s.received, max) && !f.preamble)
      && (r.rxBufValid ==> r.buf == s.received)
  {
    var s1 := Flagged(s, f, max);
    if f.rxAlmostFull { FragmentReadKeeps(s, max); }
    var s3 := if f.rxAlmostFull then ReadNextFragment(s1, max) else s1;
    var t := if f.rxAlmostFull then ReadNextFragment(s, max) else s;
    assert s3 == Flagged(t, f, max) && !f.txAlmostEmpty && !f.packetSent;
    hide ReadNextFragment, ReceiveInv;
    PlainRestIff(t, f.(rxAlmostFull := false), max);
  }

  lemma PlainRestIff(s: State, f: Flags, max: nat)
    requires ReceiveInv(s, max) && Raised(s, f) && !f.ffError && !f.rxAlmostFull && s.mode == Rx
    ensures
      var r := HandleOthers(Flagged(s, f, max), f, |s.received|, max);
      && (ReceiveInv(r, max) <==> ReceiveHarmless(s, f, max))
      && r.rxBufValid == (Completes(f, s.received, max) && !f.preamble)
      && (r.rxBufValid ==> r.buf == s.received)
  {
    var r := HandleOthers(Flagged(s, f, max), f, |s.received|, max);
    if Completes(f, s.received, max) {
      CollectedIff(s.collected, s.received, r.buf);
      if !f.preamble { ValidKeeps(s, max); }
    } else {
      assert !r.rxBufValid && r.heard == r.collected;
    }
  }

  /** In the other modes nothing is coming in. */
  lemma QuietReceiveKeeps(s: State, f: Flags, max: nat)
    requires ReceiveInv(s, max) && Raised(s, f) && s.mode != Rx
    ensures ReceiveInv(Step(s, Interrupt(f), max), max)
  {
  }

  /** An interrupt, with whatever flags it may report together, conserves what is sent and what comes in exactly when
      it is harmless to it. */
  lemma InterruptKeepsIff(s: State, f: Flags, max: nat)
    requires Raised(s, f)
    ensures SendInv(s, max) ==> (SendInv(Step(s, Interrupt(f), max), max) <==> SendHarmless(s, f))
    ensures ReceiveInv(s, max) ==> (ReceiveInv(Step(s, Interrupt(f), max), max) <==> ReceiveHarmless(s, f, max))
  {
    if SendInv(s, max) {
      if s.mode == Tx {
        SendingInterruptIff(s, f, max);
      } else {
        QuietSendKeeps(Flagged(s, f, max), f, |s.received|, max);
      }
    }
    if ReceiveInv(s, max) {
      if s.mode != Rx {
        QuietReceiveKeeps(s, f, max);
      } else if f.ffError {
        ReceivingErrorIff(s, f, max);
      } else {
        PlainReceiveIff(s, f, max);
      }
    }
    hide HandleInterrupt;
  }

  // ---------------------------------------------------------------- all steps

  lemma SendKeeps(s: State, data: Octets, max: nat)
    requires Bounds(s, max) && s.mode != Tx && !Refused(data, max)
    ensures SendInv(s, max) ==> SendInv(Send(s, data, max).1, max)
    ensures ReceiveInv(s, max) ==> (ReceiveInv(Send(s, data, max).1, max) <==> !s.rxBufValid)
  {
    if SendInv(s, max) {
      StartsFromFirst(s.(buf := data, sentIndex := 0, accepted := s.accepted + [data]), max);
    }
    hide SendInv, Going;
  }

  /** `send` takes every message of a legal length, and no other. */
  lemma SendTakesIff(s: State, data: Octets, max: nat)
    ensures Send(s, data, max).0 <==> 0 < |data| <= max
    ensures Send(s, data, max).1.accepted == if 0 < |data| <= max then s.accepted + [data] else s.accepted
    ensures 0 < |data| <= max && s.mode != Tx ==> Send(s, data, max).1.mode == Tx
  {
    hide SendNextFragment;
  }

  /** A refused message does no harm exactly when it does not come upon octets received. */
  lemma RefusedSendIff(s: State, data: Octets, max: nat)
    requires s.mode != Tx && Refused(data, max)
    ensures !Send(s, data, max).0 && (SendInv(s, max) ==> SendInv(Send(s, data, max).1, max))
    ensures ReceiveInv(s, max) ==>
      (ReceiveInv(Send(s, data, max).1, max) <==> s.buf == [] || !(s.rxBufValid || Tracks(s)))
  {
    if s.rxBufValid {
      CollectedIff(s.collected, s.buf, []);
    }
  }

  lemma DrainKeeps(s: State, max: nat)
    requires SendInv(s, max) && Enabled(s, Drain)
    ensures SendInv(Step(s, Drain, max), max)
  {
    hide HandleInterrupt, Send;
    var r := Step(s, Drain, max);
    assert r.onAir + r.txFifo == s.onAir + s.txFifo;
  }

  lemma FillKeeps(s: State, b: bv8, max: nat)
    requires ReceiveInv(s, max) && Enabled(s, Fill(b))
    ensures ReceiveInv(Step(s, Fill(b), max), max)
  {
    assert s.buf + (s.rxFifo + [b]) == (s.buf + s.rxFifo) + [b];
  }

  /** A step conserves what is sent, and what comes in, exactly when it is of those. */
  lemma StepKeepsIff(s: State, e: Event, max: nat)
    requires Enabled(s, e)
    ensures SendInv(s, max) ==> (SendInv(Step(s, e, max), max) <==> KeepsSent(s, e))
    ensures ReceiveInv(s, max) ==> (ReceiveInv(Step(s, e, max), max) <==> KeepsReceived(s, e, max))
  {
    match e
    case Sending(data) =>
      if Refused(data, max) {
        RefusedSendIff(s, data, max);
      } else if Bounds(s, max) {
        SendKeeps(s, data, max);
      }
      hide Send;
    case Drain => if SendInv(s, max) { DrainKeeps(s, max); }
    case Fill(b) => if ReceiveInv(s, max) { FillKeeps(s, b, max); }
    case Interrupt(f) =>
      InterruptKeepsIff(s, f, max);
      hide HandleInterrupt, SendInv, ReceiveInv;
    case _ =>
  }

  const ERROR_AND_EMPTY: Flags := Flags(true, true, false, false, false, false, false)

  /** A FIFO error handled together with an almost empty transmit FIFO loads two fragments at once: the FIFO
      holds them exactly when the message fits it. */
  lemma FifoBoundIff(s: State, max: nat)
    requires SendInv(s, max) && s.mode == Tx && s.buf != [] && |s.txFifo| <= TX_ALMOST_EMPTY
    ensures |HandleInterrupt(s, ERROR_AND_EMPTY, |s.received|, max).txFifo| <= FIFO_SIZE <==> |s.buf| <= FIFO_SIZE
  {
    FifoErrorKeeps(s, max);
    SecondFragmentIff(OnFifoError(s), max);
    hide OnFifoError, SendNextFragment;
  }

  // ---------------------------------------------------------------- runs

  ghost predicate Runs(s: State, run: seq<Event>, max: nat)
    decreases run
  {
    run == [] || (Enabled(s, run[0]) && Runs(Step(s, run[0], max), run[1..], max))
  }

  ghost function After(s: State, run: seq<Event>, max: nat): State
    requires Runs(s, run, max)
    decreases run
  {
    if run == [] then s else After(Step(s, run[0], max), run[1..], max)
  }

  ghost predicate AllSent(s: State, run: seq<Event>, max: nat)
    requires Runs(s, run, max)
    decreases run
  {
    run == [] || (KeepsSent(s, run[0]) && AllSent(Step(s, run[0], max), run[1..], max))
  }

  ghost predicate AllReceived(s: State, run: seq<Event>, max: nat)
    requires Runs(s, run, max)
    decreases run
  {
    run == [] || (KeepsReceived(s, run[0], max) && AllReceived(Step(s, run[0], max), run[1..], max))
  }

  /** The messages a run sends that have a legal length. */
  function Legal(run: seq<Event>, max: nat): seq<Octets> {
    if run == [] then []
    else (if run[0].Sending? && 0 < |run[0].data| <= max then [run[0].data] else []) + Legal(run[1..], max)
  }

  /** The octets come in since the last preamble, after one more event. */
  function Incoming(got: Octets, e: Event): Octets {
    match e
    case Preamble => []
    case Fill(b) => got + [b]
    case _ => got
  }

  /** The packets that come in valid and of legal length in a run, with `got` come in before. */
  function Packets(got: Octets, run: seq<Event>, max: nat): seq<Octets>
    decreases run
  {
    if run == [] then []
    else
      (if run[0].Interrupt? && run[0].f.packetValid && !run[0].f.crcError && |got| <= max then [got] else [])
      + Packets(Incoming(got, run[0]), run[1..], max)
  }

  lemma StepAccepts(s: State, e: Event, max: nat)
    requires Enabled(s, e)
    ensures Step(s, e, max).accepted == s.accepted + Legal([e], max)
  {
    hide HandleInterrupt, StartTransmit;
    assert [e][1..] == [];
  }

  lemma StepHears(s: State, e: Event, max: nat)
    requires Enabled(s, e)
    ensures Step(s, e, max).received == Incoming(s.received, e)
    ensures Step(s, e, max).heard == s.heard + Packets(s.received, [e], max)
  {
    assert [e][1..] == [];
    hide HandleInterrupt, StartTransmit;
  }

  lemma {:induction false} RunSends(s: State, run: seq<Event>, max: nat)
    requires SendInv(s, max) && Runs(s, run, max) && AllSent(s, run, max)
    ensures SendInv(After(s, run, max), max) && After(s, run, max).accepted == s.accepted + Legal(run, max)
    decreases run
  {
    hide SendInv, ReceiveInv, KeepsSent, Enabled, Step;
    if run != [] {
      StepKeepsIff(s, run[0], max);
      StepAccepts(s, run[0], max);
      assert [run[0]][1..] == [];
      RunSends(Step(s, run[0], max), run[1..], max);
    }
  }

  lemma {:induction false} RunReceives(s: State, run: seq<Event>, max: nat)
    requires ReceiveInv(s, max) && Runs(s, run, max) && AllReceived(s, run, max)
    ensures ReceiveInv(After(s, run, max), max)
    ensures After(s, run, max).heard == s.heard + Packets(s.received, run, max)
    decreases run
  {
    hide SendInv, ReceiveInv, KeepsReceived, Enabled, Step, Incoming;
    if run != [] {
      StepKeepsIff(s, run[0], max);
      StepHears(s, run[0], max);
      assert [run[0]][1..] == [];
      RunReceives(Step(s, run[0], max), run[1..], max);
    }
  }

  const POWER_UP: State := State(Idle, [], 0, false, [], 0, [], [], false, [], false, false, [], [], [], [])

  /** Through every interleaving of draining, refilling, errors and restarts, the packets completed on the air
      are the messages sent, whole and in order, but for the one under way; that one is on the air, in the FIFO
      and in the buffer, octet after octet, and the FIFOs never hold more than they can. */
  lemma SentInOrder(run: seq<Event>, max: nat)
    requires max <= 255 && Runs(POWER_UP, run, max) && AllSent(POWER_UP, run, max)
    ensures
      var s := After(POWER_UP, run, max);
      && |s.txFifo| <= FIFO_SIZE && |s.rxFifo| <= FIFO_SIZE
      && (if s.mode == Tx then s.aired + [s.onAir + s.txFifo + Unsent(s)] else s.aired) == Legal(run, max)
  {
    assert SendInv(POWER_UP, max);
    RunSends(POWER_UP, run, max);
    assert [] + Legal(run, max) == Legal(run, max);
  }

  /** Through every interleaving, what `recv` has returned are the packets that came in valid and of legal length,
      whole and in order, but for the one that waits to be collected. */
  lemma ReceivedInOrder(run: seq<Event>, max: nat)
    requires max <= 255 && Runs(POWER_UP, run, max) && AllReceived(POWER_UP, run, max)
    ensures
      var s := After(POWER_UP, run, max);
      s.collected + (if s.rxBufValid then [s.buf] else []) == Packets([], run, max)
  {
    assert ReceiveInv(POWER_UP, max);
    RunReceives(POWER_UP, run, max);
    assert [] + Packets([], run, max) == Packets([], run, max);
  }

  // ---------------------------------------------------------------- a packet's reception

  /** A packet coming in: octets, and interrupts that do not end it. */
  predicate ComingIn(run: seq<Event>) {
    forall i :: 0 <= i < |run| ==> run[i].Fill? || (run[i].Interrupt? && !run[i].f.packetValid && !run[i].f.crcError)
  }

  function Octetwise(run: seq<Event>): Octets {
    if run == [] then [] else (if run[0].Fill? then [run[0].b] else []) + Octetwise(run[1..])
  }

  /** How many octets of a packet are lost to the driver, and how many it reads in their place from the empty FIFO. */
  datatype Cut = Cut(lost: nat, read: nat)

  /** All so far are lost when the driver clears the FIFO, for the preamble or for an error. */
  function NextCut(c: Cut, n: nat, f: Flags, max: nat): Cut {
    if f.preamble then Cut(n, 0) else if f.ffError then Cut(n, ReadEmpty(f, max)) else c
  }

  function LastCut(c: Cut, n: nat, run: seq<Event>, max: nat): Cut
    decreases run
  {
    if run == [] then c
    else if run[0].Interrupt? then LastCut(NextCut(c, n, run[0].f, max), n, run[1..], max)
    else LastCut(c, n + 1, run[1..], max)
  }

  /** What the driver has of the packet coming in. */
  predicate Has(s: State, c: Cut, max: nat) {
    && s.mode == Rx && s.hearing && !s.rxBufValid && |s.buf| <= max && c.read <= c.lost <= |s.received|
    && (!s.preamble ==> |s.buf| + |s.rxFifo| <= |s.received|)
    && (Tracks(s) ==> s.buf + s.rxFifo == Meaningless(c.read) + s.received[c.lost..])
  }

  lemma FillHas(s: State, b: bv8, c: Cut, max: nat)
    requires Has(s, c, max)
    ensures Has(Filled(s, b), c, max)
  {
    assert s.buf + (s.rxFifo + [b]) == (s.buf + s.rxFifo) + [b];
    assert (s.received + [b])[c.lost..] == s.received[c.lost..] + [b];
  }

  lemma InterruptHas(s: State, f: Flags, c: Cut, max: nat)
    requires Has(s, c, max) && Raised(s, f) && !f.packetValid && !f.crcError
    ensures Has(Step(s, Interrupt(f), max), NextCut(c, |s.received|, f, max), max)
  {
  }

  lemma NextHas(s: State, e: Event, c: Cut, max: nat)
    requires Has(s, c, max) && ComingIn([e]) && Enabled(s, e)
    ensures
      var r := Step(s, e, max);
      && r.received == s.received + Octetwise([e])
      && Has(r, if e.Fill? then c else NextCut(c, |s.received|, e.f, max), max)
  {
    assert [e][0] == e && [e][1..] == [];
    if e.Fill? { FillHas(s, e.b, c, max); } else { InterruptHas(s, e.f, c, max); }
    hide Has, HandleInterrupt, NextCut;
  }

  lemma {:induction false} ComingInHas(s: State, run: seq<Event>, c: Cut, max: nat)
    requires Has(s, c, max) && ComingIn(run) && Runs(s, run, max)
    ensures
      var r := After(s, run, max);
      && Has(r, LastCut(c, |s.received|, run, max), max) && r.received == s.received + Octetwise(run)
    decreases run
  {
    hide Has, Enabled, Step, NextCut;
    if run != [] {
      var e := run[0];
      NextHas(s, e, c, max);
      assert [e][1..] == [] && Octetwise(run) == Octetwise([e]) + Octetwise(run[1..]);
      ComingInHas(Step(s, e, max), run[1..], if e.Fill? then c else NextCut(c, |s.received|, e.f, max), max);
    }
  }

  /** What is read at the end. */
  function Delivered(p: Octets, c: Cut): Octets
    requires c.read <= c.lost <= |p|
  {
    Meaningless(c.read) + p[c.lost..] + Meaningless(c.lost - c.read)
  }

  /** What an interrupt at the end of a packet reads, after the FIFO's other parts. */
  lemma AtEnd(t: State, f: Flags, len: nat, max: nat)
    requires !f.txAlmostEmpty && !f.rxAlmostFull && !f.packetSent && f.packetValid
    ensures
      var r := HandleOthers(t, f, len, max);
      && r.rxBufValid == (!BadLength(t, len, max) && !f.crcError && !f.preamble)
      && (r.rxBufValid ==> r.buf == t.buf + BurstRead(t.rxFifo, len - |t.buf|).0)
  {
    hide BurstRead;
  }

  /** What has been read before. */
  lemma ReadBefore(s: State, f: Flags, c: Cut, max: nat)
    requires Has(s, c, max) && Raised(s, f) && f.packetValid && !s.preamble
    ensures
      var s1 := if f.ffError then OnFifoError(Flagged(s, f, max)) else Flagged(s, f, max);
      var t := if f.rxAlmostFull then ReadNextFragment(s1, max) else s1;
      && |t.buf| + |t.rxFifo| <= |s.received|
      && t.buf + t.rxFifo ==
           if f.ffError then Meaningless(ReadEmpty(f, max)) else Meaningless(c.read) + s.received[c.lost..]
  {
  }

  lemma ReadAll(t: State, p: Octets, c: Cut)
    requires |t.buf| <= |p| && c.read <= c.lost <= |p| && t.buf + t.rxFifo == Meaningless(c.read) + p[c.lost..]
    ensures t.buf + BurstRead(t.rxFifo, |p| - |t.buf|).0 == Delivered(p, c)
  {
    assert |t.rxFifo| == c.read + |p| - c.lost - |t.buf|;
  }

  lemma ValidHas(s: State, f: Flags, c: Cut, max: nat)
    requires Has(s, c, max) && Raised(s, f) && f.packetValid
    ensures
      var r := Step(s, Interrupt(f), max);
      var last := NextCut(c, |s.received|, f, max);
      && r.rxBufValid == (Completes(f, s.received, max) && !f.preamble)
      && (r.rxBufValid ==> last.read <= last.lost <= |s.received| && r.buf == Delivered(s.received, last))
  {
    var s1 := if f.ffError then OnFifoError(Flagged(s, f, max)) else Flagged(s, f, max);
    var t := if f.rxAlmostFull then ReadNextFragment(s1, max) else s1;
    var last := NextCut(c, |s.received|, f, max);
    assert Step(s, Interrupt(f), max) == HandleOthers(t, f.(rxAlmostFull := false), |s.received|, max) by {
      hide OnFifoError, ReadNextFragment;
    }
    AtEnd(t, f.(rxAlmostFull := false), |s.received|, max);
    hide HandleInterrupt, HandleOthers, OnFifoError, ReadNextFragment, BurstRead, Delivered;
    if !s.preamble {
      ReadBefore(s, f, c, max);
      ReadAll(t, s.received, last);
    }
  }

  lemma {:induction false} ShiftedIntoItself(p: Octets, c: Cut, i: nat)
    requires c.read < c.lost <= |p| && Delivered(p, c) == p && i < |p|
    ensures p[i] == 0
    decreases |p| - i
  {
    var shift := c.lost - c.read;
    assert p[i] == Delivered(p, c)[i];
    if c.read <= i < |p| - shift {
      ShiftedIntoItself(p, c, i + shift);
    }
  }

  /** A packet is delivered as it came exactly when nothing of it was lost, but for octets that reading an empty FIFO
      happens to yield. */
  lemma DeliveredWholeIff(p: Octets, c: Cut)
    requires c.read <= c.lost <= |p|
    ensures Delivered(p, c) == p <==>
      p == Meaningless(|p|) || (c.lost == c.read && p[..c.lost] == Meaningless(c.lost))
  {
    if p == Meaningless(|p|) {
      assert forall i :: c.lost <= i < |p| ==> p[i] == 0;
    } else if c.lost == c.read {
      assert p == p[..c.lost] + p[c.lost..];
      assert Delivered(p, c)[..c.lost] == Meaningless(c.lost);
    } else if Delivered(p, c) == p {
      forall i | 0 <= i < |p| ensures p[i] == 0 { ShiftedIntoItself(p, c, i); }
    }
  }

  /** However the octets and the interrupts interleave: a packet of legal length taken for valid is delivered when its
      preamble has been handled before. It is delivered as it came but for the octets lost when the FIFO was cleared
      last, which are missing in front, with meaningless ones in their place and behind. */
  lemma ReceivedWhole(s: State, run: seq<Event>, f: Flags, max: nat)
    requires ReceiveInv(s, max) && s.mode == Rx && ComingIn(run) && Runs(Step(s, Preamble, max), run, max)
    requires Raised(After(Step(s, Preamble, max), run, max), f) && f.packetValid
    ensures
      var r := After(Step(s, Preamble, max), run, max);
      var done := Step(r, Interrupt(f), max);
      var p := Octetwise(run);
      && r.received == p && done.rxBufValid == (|p| <= max && !f.crcError && !f.preamble)
      && (done.rxBufValid ==>
            var c := LastCut(Cut(0, 0), 0, run + [Interrupt(f)], max);
            && c.read <= c.lost <= |p| && Recv(done).0 == Delivered(p, c)
            && (Recv(done).0 == p <==>
                  p == Meaningless(|p|) || (c.lost == c.read && p[..c.lost] == Meaningless(c.lost))))
  {
    hide Has, Delivered, NextCut, Raised, Recv, Runs, After, LastCut, ComingIn, ReceiveInv, Octetwise;
    var start := Step(s, Preamble, max);
    StartHas(s, max);
    ComingInHas(start, run, Cut(0, 0), max);
    assert [] + Octetwise(run) == Octetwise(run);
    EndsWith(After(start, run, max), f, LastCut(Cut(0, 0), 0, run, max), max);
    CutAfter(Cut(0, 0), 0, run, f, max);
  }

  lemma StartHas(s: State, max: nat)
    requires ReceiveInv(s, max) && s.mode == Rx
    ensures Has(Step(s, Preamble, max), Cut(0, 0), max) && Step(s, Preamble, max).received == []
  {
  }

  lemma EndsWith(s: State, f: Flags, c: Cut, max: nat)
    requires Has(s, c, max) && Raised(s, f) && f.packetValid
    ensures
      var done := Step(s, Interrupt(f), max);
      var p, last := s.received, NextCut(c, |s.received|, f, max);
      && done.rxBufValid == (Completes(f, p, max) && !f.preamble)
      && (done.rxBufValid ==>
            && last.read <= last.lost <= |p| && Recv(done).0 == Delivered(p, last)
            && (Recv(done).0 == p <==>
                  p == Meaningless(|p|) || (last.lost == last.read && p[..last.lost] == Meaningless(last.lost))))
  {
    ValidHas(s, f, c, max);
    hide Has, HandleInterrupt, Delivered, NextCut;
    if Step(s, Interrupt(f), max).rxBufValid { DeliveredWholeIff(s.received, NextCut(c, |s.received|, f, max)); }
  }

  lemma {:induction false} CutAfter(c: Cut, n: nat, run: seq<Event>, f: Flags, max: nat)
    requires ComingIn(run)
    ensures LastCut(c, n, run + [Interrupt(f)], max) ==
      NextCut(LastCut(c, n, run, max), n + |Octetwise(run)|, f, max)
    decreases run
  {
    hide NextCut;
    var all := run + [Interrupt(f)];
    if run != [] {
      assert all[1..] == run[1..] + [Interrupt(f)] && all[0] == run[0];
      if run[0].Fill? {
        CutAfter(c, n + 1, run[1..], f, max);
      } else {
        CutAfter(NextCut(c, n, run[0].f, max), n, run[1..], f, max);
      }
    } else {
      assert all == [Interrupt(f)] && all[1..] == [];
    }
  }

  // ---------------------------------------------------------------- runs into the harmful cases

  const ERROR_ONLY: Flags := Flags(true, false, false, false, false, false, false)
  const ERROR_AND_SENT: Flags := Flags(true, false, false, true, false, false, false)
  const ERROR_AND_VALID: Flags := Flags(true, false, false, false, true, false, false)
  const VALID_ONLY: Flags := Flags(false, false, false, false, true, false, false)
  const VALID_AND_PREAMBLE: Flags := Flags(false, false, false, false, true, false, true)
  const PREAMBLE_ONLY: Flags := Flags(false, false, false, false, false, false, true)

  lemma RunFirst(s: State, e: Event, rest: seq<Event>, max: nat)
    requires Enabled(s, e) && Runs(Step(s, e, max), rest, max)
    ensures Runs(s, [e] + rest, max) && After(s, [e] + rest, max) == After(Step(s, e, max), rest, max)
  {
    assert ([e] + rest)[1..] == rest;
  }

  lemma {:induction false} RunOn(s: State, run: seq<Event>, e: Event, max: nat)
    requires Runs(s, run, max) && Enabled(After(s, run, max), e)
    ensures Runs(s, run + [e], max) && After(s, run + [e], max) == Step(After(s, run, max), e, max)
    decreases run
  {
    hide Step, Enabled;
    if run == [] {
      assert [] + [e] == [e];
      RunFirst(s, e, [], max);
    } else {
      assert (run + [e])[1..] == run[1..] + [e] && (run + [e])[0] == run[0];
      RunOn(Step(s, run[0], max), run[1..], e, max);
    }
  }

  function Drains(n: nat): (run: seq<Event>) { if n == 0 then [] else [Drain] + Drains(n - 1) }

  lemma {:induction false} DrainMany(s: State, n: nat, max: nat)
    requires s.mode == Tx && n <= |s.txFifo| && |s.onAir| + n <= s.packetLength
    ensures Runs(s, Drains(n), max)
    ensures After(s, Drains(n), max) == s.(txFifo := s.txFifo[n..], onAir := s.onAir + s.txFifo[..n])
    decreases n
  {
    hide HandleInterrupt, Send;
    if n == 0 {
      assert s.onAir + [] == s.onAir && s.txFifo[0..] == s.txFifo;
    } else {
      var t := Step(s, Drain, max);
      DrainMany(t, n - 1, max);
      RunFirst(s, Drain, Drains(n - 1), max);
      assert t.txFifo[n - 1..] == s.txFifo[n..];
      assert t.onAir + t.txFifo[..n - 1] == s.onAir + s.txFifo[..n];
    }
  }

  /** The state in which a message of 65 octets has been sent but for the fragment's last four and those behind. */
  function NearlyEmpty(data: Octets): State
    requires |data| == 65
  {
    POWER_UP.(mode := Tx, buf := data, sentIndex := 59, txFifo := data[55..59], packetLength := 65,
              onAir := data[..55], accepted := [data])
  }

  lemma NearlyEmptyReached(data: Octets)
    requires |data| == 65
    ensures
      var run := [Sending(data)] + Drains(55);
      Runs(POWER_UP, run, 255) && After(POWER_UP, run, 255) == NearlyEmpty(data)
  {
    var s := NearlyEmpty(data).(txFifo := data[..59], onAir := []);
    FirstFragment(data);
    DrainMany(s, 55, 255);
    assert data[..59][55..] == data[55..59] && [] + data[..59][..55] == data[..55];
    hide After, Runs, Drains, Step, Send;
    assert Enabled(POWER_UP, Sending(data));
    RunFirst(POWER_UP, Sending(data), Drains(55), 255);
  }

  lemma FirstFragment(data: Octets)
    requires |data| == 65
    ensures Step(POWER_UP, Sending(data), 255) == NearlyEmpty(data).(txFifo := data[..59], onAir := [])
  {
    assert data[0..59] == data[..59];
  }

  /** When the FIFO then runs empty before the interrupt is handled, 65 octets are written to the FIFO of 64. */
  lemma OverfillReached(data: Octets)
    requires |data| == 65
    ensures
      var run := [Sending(data)] + Drains(55);
      && Runs(POWER_UP, run, 255)
      && var s := After(POWER_UP, run, 255);
      Raised(s, ERROR_AND_EMPTY) && |HandleInterrupt(s, ERROR_AND_EMPTY, 0, 255).txFifo| == 65
  {
    NearlyEmptyReached(data);
    hide After, Runs, Drains;
  }

  /** Listening, with the preamble of a packet come in. */
  const BEGUN: State := POWER_UP.(mode := Rx, hearing := true, preamble := true)

  /** The same with the packet's first octet. */
  const UNHANDLED: State := BEGUN.(rxFifo := [7], received := [7])

  /** The same with the preamble handled in time. */
  const HANDLED: State := UNHANDLED.(preamble := false)

  const BEGINS: seq<Event> := [Listen, Preamble]
  const LATE: seq<Event> := BEGINS + [Fill(7)]
  const IN_TIME: seq<Event> := BEGINS + [Interrupt(PREAMBLE_ONLY)] + [Fill(7)]

  lemma BegunReached(max: nat)
    ensures Runs(POWER_UP, BEGINS, max) && After(POWER_UP, BEGINS, max) == BEGUN
  {
    hide HandleInterrupt, Send;
  }

  lemma LateReached()
    ensures Runs(POWER_UP, LATE, 50) && After(POWER_UP, LATE, 50) == UNHANDLED
  {
    BegunReached(50);
    assert Step(BEGUN, Fill(7), 50) == UNHANDLED;
    hide Runs, After, Step;
    RunOn(POWER_UP, BEGINS, Fill(7), 50);
  }

  lemma InTimeReached()
    ensures Runs(POWER_UP, IN_TIME, 50) && After(POWER_UP, IN_TIME, 50) == HANDLED
  {
    BegunReached(50);
    var s := BEGUN.(preamble := false);
    assert Step(BEGUN, Interrupt(PREAMBLE_ONLY), 50) == s && Step(s, Fill(7), 50) == HANDLED;
    hide Runs, After, Step;
    RunOn(POWER_UP, BEGINS, Interrupt(PREAMBLE_ONLY), 50);
    RunOn(POWER_UP, BEGINS + [Interrupt(PREAMBLE_ONLY)], Fill(7), 50);
  }

  /** An octet received and not collected is lost to a refused message. */
  lemma RefusedSendLoses()
    ensures
      var run := IN_TIME + [Interrupt(VALID_ONLY)];
      && Runs(POWER_UP, run, 50)
      && var s := After(POWER_UP, run, 50);
      && s.rxBufValid && Recv(s).0 == [7]
      && var (ok, t) := Send(s, [], 50);
      !ok && t.rxBufValid && Recv(t).0 == []
  {
    InTimeReached();
    hide Runs, After;
    RunOn(POWER_UP, IN_TIME, Interrupt(VALID_ONLY), 50);
  }

  /** A FIFO error together with a packet taken for valid delivers octets that were never received. */
  lemma GarbledPacket()
    ensures Runs(POWER_UP, IN_TIME, 50)
    ensures
      var s := After(POWER_UP, IN_TIME, 50);
      && Raised(s, ERROR_AND_VALID)
      && var r := Step(s, Interrupt(ERROR_AND_VALID), 50);
      s.received == [7] && r.rxBufValid && Recv(r).0 == Meaningless(1)
  {
    InTimeReached();
    hide Runs, After;
  }

  /** A FIFO error that is handled while the packet still comes in: the packet [7, 8] is delivered as [8, 0]. */
  lemma ShiftedPacket()
    ensures
      var run := IN_TIME + [Interrupt(ERROR_ONLY)] + [Fill(8)] + [Interrupt(VALID_ONLY)];
      && Runs(POWER_UP, run, 50)
      && var s := After(POWER_UP, run, 50);
      s.received == [7, 8] && s.heard == [[7, 8]] && s.rxBufValid && Recv(s).0 == [8, 0]
  {
    InTimeReached();
    ShiftedFrom(IN_TIME, Interrupt(ERROR_ONLY));
    hide *;
  }

  /** Nor does a preamble handled late spare the octets that came in before. */
  lemma LatePreamble()
    ensures
      var run := LATE + [Interrupt(PREAMBLE_ONLY)] + [Fill(8)] + [Interrupt(VALID_ONLY)];
      && Runs(POWER_UP, run, 50)
      && var s := After(POWER_UP, run, 50);
      s.received == [7, 8] && s.heard == [[7, 8]] && s.rxBufValid && Recv(s).0 == [8, 0]
  {
    LateReached();
    ShiftedFrom(LATE, Interrupt(PREAMBLE_ONLY));
    hide *;
  }

  lemma ShiftedFrom(start: seq<Event>, e: Event)
    requires Runs(POWER_UP, start, 50)
    requires
      var s := After(POWER_UP, start, 50);
      (s == HANDLED && e == Interrupt(ERROR_ONLY)) || (s == UNHANDLED && e == Interrupt(PREAMBLE_ONLY))
    ensures
      var run := start + [e] + [Fill(8)] + [Interrupt(VALID_ONLY)];
      && Runs(POWER_UP, run, 50)
      && var s := After(POWER_UP, run, 50);
      s.received == [7, 8] && s.heard == [[7, 8]] && s.rxBufValid && Recv(s).0 == [8, 0]
  {
    var cleared := HANDLED.(rxFifo := []);
    var more := HANDLED.(rxFifo := [8], received := [7, 8]);
    assert Step(After(POWER_UP, start, 50), e, 50) == cleared && Step(cleared, Fill(8), 50) == more;
    assert Step(more, Interrupt(VALID_ONLY), 50).buf == [8, 0];
    hide Runs, After, Step;
    RunOn(POWER_UP, start, e, 50);
    RunOn(POWER_UP, start + [e], Fill(8), 50);
    RunOn(POWER_UP, start + [e] + [Fill(8)], Interrupt(VALID_ONLY), 50);
  }

  /** A packet that is complete before its preamble is handled is thrown away. */
  lemma PacketDiscarded()
    ensures Runs(POWER_UP, LATE, 50)
    ensures
      var s := After(POWER_UP, LATE, 50);
      && Raised(s, VALID_AND_PREAMBLE)
      && var r := Step(s, Interrupt(VALID_AND_PREAMBLE), 50);
      r.heard == [[7]] && !r.rxBufValid && r.collected == []
  {
    LateReached();
    hide Runs, After;
  }

  /** A preamble that is handled when the next message is already being sent cuts that message short: six octets of
      65 never leave the buffer, and the packet waits for them. */
  lemma MessageCut(data: Octets)
    requires |data| == 65
    ensures
      var run := BEGINS + [Sending(data)] + [Interrupt(PREAMBLE_ONLY)];
      && Runs(POWER_UP, run, 255)
      && var s := After(POWER_UP, run, 255);
      && s.mode == Tx && s.packetLength == 65 && s.onAir == [] && s.txFifo == data[..59]
      && s.buf == [] && SendNextFragment(s) == s
  {
    CutReached(data, 255);
  }

  /** Sending has begun, and the preamble's interrupt has been handled. */
  function CutShort(data: Octets): State {
    var n := if |data| < FRAGMENT then |data| else FRAGMENT;
    POWER_UP.(mode := Tx, sentIndex := n, txFifo := data[..n], packetLength := |data|, accepted := [data])
  }

  lemma SentOverPreamble(data: Octets, max: nat)
    requires 0 < |data| <= max
    ensures Step(BEGUN, Sending(data), max) == CutShort(data).(preamble := true, buf := data)
    ensures
      Step(CutShort(data).(preamble := true, buf := data), Interrupt(PREAMBLE_ONLY), max) == CutShort(data)
  {
    assert data[0..0 + |data|] == data;
  }

  lemma CutReached(data: Octets, max: nat)
    requires 0 < |data| <= max
    ensures
      var run := BEGINS + [Sending(data)] + [Interrupt(PREAMBLE_ONLY)];
      Runs(POWER_UP, run, max) && After(POWER_UP, run, max) == CutShort(data)
  {
    BegunReached(max);
    SentOverPreamble(data, max);
    hide Runs, After, Step, CutShort;
    RunOn(POWER_UP, BEGINS, Sending(data), max);
    RunOn(POWER_UP, BEGINS + [Sending(data)], Interrupt(PREAMBLE_ONLY), max);
  }

  /** A FIFO error after that restarts with a packet of no octets. */
  lemma NothingRestarted()
    ensures
      var run := BEGINS + [Sending([7])] + [Interrupt(PREAMBLE_ONLY)] + [Interrupt(ERROR_ONLY)];
      && Runs(POWER_UP, run, 50)
      && var s := After(POWER_UP, run, 50);
      s.mode == Tx && s.accepted == [[7]] && s.packetLength == 0 && s.txFifo == []
  {
    CutReached([7], 50);
    var t := Step(CutShort([7]), Interrupt(ERROR_ONLY), 50);
    assert t.mode == Tx && t.accepted == [[7]] && t.packetLength == 0 && t.txFifo == [];
    hide Runs, After, Step;
    RunOn(POWER_UP, BEGINS + [Sending([7])] + [Interrupt(PREAMBLE_ONLY)], Interrupt(ERROR_ONLY), 50);
  }

  /** A FIFO error together with the end of a packet leaves the message in the FIFO, ahead of the next one,
      whose packet then begins with the old octets. */
  lemma StrandedFragment()
    ensures
      var run := [Sending([7]), Drain];
      && Runs(POWER_UP, run, 50)
      && var s := After(POWER_UP, run, 50);
      && Raised(s, ERROR_AND_SENT)
      && var t := Step(s, Interrupt(ERROR_AND_SENT), 50);
      && t.mode == Idle && t.txFifo == [7]
      && var (ok, u) := Send(t, [8], 50);
      && ok && u.txFifo == [7, 8] && u.packetLength == 1 && Enabled(u, Drain)
      && Step(u, Drain, 50).onAir == [7]
  {
  }
}
