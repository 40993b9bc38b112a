/** The ASK driver object: its fields, and methods that follow the state machine of AskModem. */
module AskDriver {
  import Crc
  import opened AskCode
  import opened AskModem
  import Pll = AskPll
  import F = AskFramer

  const TX_BUF_SIZE := 2 * MAX_PAYLOAD_LEN + PREAMBLE_LEN

  ghost predicate HasPreamble(symbols: seq<bv8>) { PREAMBLE <= symbols }

  class RhAsk {
    var mode: Mode
    var line: bool
    const thisAddress: bv8
    const promiscuous: bool

    // transmitter
    const txBuf: array<bv8>
    var txBufLen: nat
    var txIndex: nat
    var txBit: nat
    var txSample: nat
    var txGood: nat
    var txHeaders: Headers

    // receiver
    var rxPllRamp: nat
    var rxLastSample: bool
    var rxIntegrator: nat
    var rxBits: bv16
    var rxActive: bool
    var rxBitCount: nat
    const rxBuf: array<bv8>
    var rxBufLen: nat
    var rxCount: nat
    var rxBufFull: bool
    var rxBufValid: bool
    var rxBad: nat
    var rxGood: nat
    var rxHeaders: Headers

    ghost predicate Shape()
      reads this, txBuf, rxBuf
    {
      && txBuf.Length == TX_BUF_SIZE && rxBuf.Length == MAX_PAYLOAD_LEN && txBuf != rxBuf
      && PREAMBLE_LEN <= txBufLen <= TX_BUF_SIZE && rxBufLen <= MAX_PAYLOAD_LEN
      && HasPreamble(txBuf[..])
    }

    ghost function Sending(): Sender
      reads this`mode, this`line, this`txBufLen, this`txIndex, this`txBit, this`txSample, this`txGood, txBuf
      requires txBufLen <= txBuf.Length
    {
      Sender(mode == Tx, line, Transmitter(txBuf[..txBufLen], txIndex, txBit, txSample), txGood)
    }

    ghost function Loop(): Pll.Pll
      reads this`rxPllRamp, this`rxLastSample, this`rxIntegrator
    {
      Pll.Pll(rxPllRamp, rxLastSample, rxIntegrator)
    }

    ghost function Framing(): F.Framer
      reads this`mode, this`rxBits, this`rxActive, this`rxBitCount
      reads this`rxBufLen, this`rxCount, this`rxBufFull, this`rxBad, rxBuf
      requires rxBufLen <= rxBuf.Length
    {
      F.Framer(mode == Rx, rxBits, rxActive, rxBitCount, rxBuf[..rxBufLen], rxCount, rxBufFull, rxBad)
    }

    ghost function Judged(): Verdict
      reads this`rxBad, this`rxBufValid, this`rxGood, this`rxHeaders
    {
      Verdict(rxBad, rxBufValid, rxGood, rxHeaders)
    }

    /** The state of the driver as a value. */
    ghost function State(): Ask
      reads this, txBuf, rxBuf
      requires Shape()
    {
      Ask(mode, line,
          Sending().tx, txGood, txHeaders,
          Loop(),
          Framing(),
          rxBufValid, rxGood, rxHeaders, thisAddress, promiscuous)
    }

    ghost predicate Valid()
      reads this, txBuf, rxBuf
    {
      Shape() && State().Consistent()
    }

    constructor (address: bv8, promiscuous: bool)
      ensures Valid() && fresh(txBuf) && fresh(rxBuf)
      ensures State().mode == Idle && State().address == address && State().promiscuous == promiscuous
    {
      thisAddress, this.promiscuous := address, promiscuous;
      txBuf := new bv8[TX_BUF_SIZE](i => if 0 <= i < PREAMBLE_LEN then PREAMBLE[i] else 0);
      rxBuf := new bv8[MAX_PAYLOAD_LEN](_ => 0);
      txBufLen, txIndex, txBit, txSample, txGood := PREAMBLE_LEN, 0, 0, 0, 0;
      rxPllRamp, rxLastSample, rxIntegrator := 0, false, 0;
      rxBits, rxActive, rxBitCount, rxBufLen, rxCount := 0, false, 0, 0, 0;
      rxBufFull, rxBufValid, rxBad, rxGood := false, false, 0, 0;
      mode, line := Idle, false;
      txHeaders := Headers(BROADCAST_ADDRESS, BROADCAST_ADDRESS, 0, 0);
      rxHeaders := Headers(0, 0, 0, 0);
    }

    method SetModeRx()
      modifies this`mode, this`line
      ensures mode == Rx && line == (old(mode) == Rx && old(line))
    {
      if mode != Rx {
        line := false;
        mode := Rx;
      }
    }

    /** Linear search of one half of the symbol table. */
    method Symbol6to4(symbol: bv8) returns (n: bv8)
      ensures n == Decode(symbol)
    {
      var r := FindSymbol(SYMBOLS, symbol, SearchStart(symbol));
      return r as bv8;
    }

    method FindSymbol(table: seq<bv8>, symbol: bv8, start: nat) returns (r: nat)
      requires start + 8 <= |table|
      ensures r == Search(table, symbol, start, 8)
    {
      var i, count := start, 8;
      while count > 0
        invariant i + count == start + 8
        invariant Search(table, symbol, start, 8) == Search(table, symbol, i, count)
        decreases count
      {
        if symbol == table[i] { return i; }
        count := count - 1;
        i := i + 1;
      }
      return 0;
    }

    /** Puts the next bit on the line, or ends the transmission. */
    method SendNextBit()
      requires txBufLen <= txBuf.Length && mode == Tx && txBit < 6
      modifies this`line, this`mode, this`txGood, this`txBit, this`txIndex
      ensures Sending() == NextBit(old(Sending())) && mode in {Tx, Idle}
    {
      hide SymbolBits;
      if txIndex >= txBufLen {
        line := false;
        mode := Idle;
        txGood := (txGood + 1) % 0x10000;
      } else {
        line := SymbolBits(txBuf[txIndex])[txBit];
        txBit := txBit + 1;
        if txBit >= 6 {
          txBit := 0;
          txIndex := txIndex + 1;
        }
      }
    }

    method TransmitTimer()
      requires txBufLen <= txBuf.Length && mode == Tx && txBit < 6
      modifies this`line, this`mode, this`txGood, this`txBit, this`txIndex, this`txSample
      ensures Sending() == SenderStep(old(Sending())) && mode in {Tx, Idle}
    {
      hide NextBit;
      if txSample == 0 {
        SendNextBit();
      }
      txSample := txSample + 1;
      if txSample > 7 { txSample := 0; }
    }

    /** A byte of a message has been collected. */
    method TakeByte(thisByte: bv8)
      requires mode == Rx && rxBufLen < rxBuf.Length == MAX_PAYLOAD_LEN
      modifies this`rxCount, this`rxActive, this`rxBad, this`rxBufLen, this`rxBufFull
      modifies this`mode, this`line, this`rxBitCount, rxBuf
      ensures rxBufLen <= rxBuf.Length && Framing() == F.AcceptByte(old(Framing()), thisByte)
      ensures mode in {Rx, Idle} && line == (mode == Rx && old(line))
    {
      hide NatOf;
      if rxBufLen == 0 {
        rxCount := NatOf(thisByte);
        if rxCount < 7 || rxCount > MAX_PAYLOAD_LEN {
          rxActive := false;
          rxBad := (rxBad + 1) % 0x10000;
          return;
        }
      }
      rxBuf[rxBufLen] := thisByte;
      rxBufLen := rxBufLen + 1;
      assert rxBuf[..rxBufLen] == old(rxBuf[..rxBufLen]) + [thisByte];
      if rxBufLen >= rxCount {
        rxActive := false;
        rxBufFull := true;
        line := false;
        mode := Idle;
      }
      rxBitCount := 0;
    }

    /** The bit handling of `receiveTimer`, once the ramp has wrapped. */
    method TakeBit(bit: bool)
      requires rxBuf.Length == MAX_PAYLOAD_LEN && rxBufLen <= MAX_PAYLOAD_LEN && mode == Rx && Framing().Safe()
      modifies this`rxBits, this`rxCount, this`rxActive, this`rxBad, this`rxBufLen, this`rxBufFull
      modifies this`mode, this`line, this`rxBitCount, rxBuf
      ensures rxBufLen <= rxBuf.Length && Framing() == F.Step(old(Framing()), bit)
      ensures mode in {Rx, Idle} && line == (mode == Rx && old(line))
    {
      hide Push, Join, Decode, FirstSymbol, SecondSymbol, NatOf, F.AcceptByte;
      rxBits := Push(rxBits, bit);
      if rxActive {
        rxBitCount := rxBitCount + 1;
        if rxBitCount >= 12 {
          var high := Symbol6to4(FirstSymbol(rxBits));
          var low := Symbol6to4(SecondSymbol(rxBits));
          TakeByte(Join(high, low));
        }
      } else if rxBits == START_SYMBOL {
        rxActive := true;
        rxBitCount := 0;
        rxBufLen := 0;
      }
    }

    /** Integrates the sample and advances the ramp; on a wrap the integrator is dumped. */
    method TakeSample(sample: bool) returns (wrapped: bool, bit: bool)
      modifies this`rxIntegrator, this`rxPllRamp, this`rxLastSample
      ensures Pll.Step(old(Loop()), sample) == (Loop(), if wrapped then [bit] else [])
    {
      if sample { rxIntegrator := rxIntegrator + 1; }
      if sample != rxLastSample {
        var inc := if rxPllRamp < Pll.RAMP_TRANSITION then Pll.RAMP_INC_RETARD else Pll.RAMP_INC_ADVANCE;
        rxPllRamp := rxPllRamp + inc;
        rxLastSample := sample;
      } else {
        rxPllRamp := rxPllRamp + Pll.RAMP_INC;
      }
      wrapped, bit := rxPllRamp >= Pll.RAMP_LEN, rxIntegrator >= 5;
      if wrapped {
        rxPllRamp := rxPllRamp - Pll.RAMP_LEN;
        rxIntegrator := 0;
      }
    }

    method ReceiveTimer(sample: bool)
      requires rxBuf.Length == MAX_PAYLOAD_LEN && rxBufLen <= MAX_PAYLOAD_LEN && mode == Rx && Framing().Safe()
      modifies this`rxPllRamp, this`rxLastSample, this`rxIntegrator
      modifies this`rxBits, this`rxCount, this`rxActive, this`rxBad, this`rxBufLen, this`rxBufFull
      modifies this`mode, this`line, this`rxBitCount, rxBuf
      ensures rxBufLen <= rxBuf.Length
      ensures
        var (p, d) := Pll.Step(old(Loop()), sample);
        Loop() == p && Framing() == F.Run(old(Framing()), d)
      ensures mode in {Rx, Idle} && line == (mode == Rx && old(line))
    {
      hide F.Step, F.Framer.Safe, F.Run, Pll.Step;
      ghost var f := Framing();
      var wrapped, bit := TakeSample(sample);
      if wrapped {
        F.RunOne(f, bit);
        TakeBit(bit);
      } else {
        EmptyRun(f);
      }
    }

    method ReceiveInterrupt(sample: bool)
      requires Valid() && mode == Rx
      modifies this, rxBuf
      ensures Shape() && State() == ReceiveTick(old(State()), sample)
    {
      hide Pll.Step, F.Run, F.Framer.Safe, Ask.Consistent, HasPreamble;
      ConsistentFacts(State());
      ReceiveTimer(sample);
    }

    method TransmitInterrupt()
      requires Valid() && mode == Tx
      modifies this
      ensures Shape() && State() == TransmitTick(old(State()))
    {
      hide SenderStep, Ask.Consistent, HasPreamble;
      ConsistentFacts(State());
      TransmitTimer();
    }

    method HandleTimerInterrupt(sample: bool)
      requires Valid()
      modifies this, rxBuf
      ensures Shape() && State() == Tick(old(State()), sample)
      ensures Valid()
    {
      hide ReceiveTick, TransmitTick, Ask.Consistent, HasPreamble;
      TickConsistent(State(), sample);
      ConsistentFacts(State());
      if mode == Rx {
        ReceiveInterrupt(sample);
      } else if mode == Tx {
        TransmitInterrupt();
      }
    }

    method RunCrc() returns (crc: bv16)
      requires rxBufLen <= rxBuf.Length
      ensures crc == Crc.Over(Crc.INITIAL, rxBuf[..rxBufLen])
    {
      hide Crc.Update;
      crc := Crc.INITIAL;
      for i := 0 to rxBufLen
        invariant crc == Crc.Over(Crc.INITIAL, rxBuf[..i])
      {
        assert rxBuf[..i + 1][..i] == rxBuf[..i];
        crc := Crc.Update(crc, rxBuf[i]);
      }
    }

    /** Checks the frame in the receive buffer and extracts its headers. */
    method ValidateRxBuf()
      requires 7 <= rxBufLen <= rxBuf.Length
      modifies this`rxBad, this`rxBufValid, this`rxHeaders, this`rxGood
      ensures Judged() == Judge(old(Judged()), rxBuf[..rxBufLen], promiscuous, thisAddress)
    {
      var crc := RunCrc();
      if crc != Crc.GOOD {
        rxBad := (rxBad + 1) % 0x10000;
        rxBufValid := false;
        return;
      }
      rxHeaders := Headers(rxBuf[1], rxBuf[2], rxBuf[3], rxBuf[4]);
      if promiscuous || rxHeaders.to == thisAddress || rxHeaders.to == BROADCAST_ADDRESS {
        rxGood := (rxGood + 1) % 0x10000;
        rxBufValid := true;
      }
    }

    /** Turns the receiver on and checks a full buffer once. */
    method StartAndCheck()
      requires rxBufLen <= rxBuf.Length && (rxBufFull ==> rxBufLen >= 7)
      modifies this`mode, this`line, this`rxBad, this`rxBufValid, this`rxHeaders, this`rxGood, this`rxBufFull
      ensures mode == Rx && line == (old(mode) == Rx && old(line)) && !rxBufFull
      ensures Judged() ==
        if old(rxBufFull) then Judge(old(Judged()), rxBuf[..rxBufLen], promiscuous, thisAddress) else old(Judged())
    {
      hide Judge;
      SetModeRx();
      if rxBufFull {
        ValidateRxBuf();
        rxBufFull := false;
      }
    }

    method CheckAvailable() returns (ok: bool)
      requires Valid()
      modifies this
      ensures Shape() && (State(), ok) == Available(old(State()))
      ensures Valid()
    {
      hide Judge, Ask.Consistent, HasPreamble, StartReceiving, Collect;
      ConsistentFacts(State());
      AvailableConsistent(State());
      if mode == Tx { return false; }
      AvailableFields(State());
      StartAndCheck();
      return rxBufValid;
    }

    /** `recv` into `size` octets; no tick may have overwritten a message already validated. */
    method Receive(size: nat) returns (r: Received)
      requires Valid() && (rxBufValid ==> rxBufLen >= 7)
      modifies this
      ensures Shape() && (State(), r) == Recv(old(State()), size)
      ensures Valid()
    {
      hide Available, HasPreamble, Ask.Consistent;
      ghost var was := State();
      AvailableConsistent(was);
      AvailableLength(was);
      var ok := CheckAvailable();
      if !ok { return Nothing; }
      assert State() == Available(was).0;
      assert |State().framer.buf| >= 7;
      assert State().framer.buf == Framing().buf == rxBuf[..rxBufLen];
      var messageLen := rxBufLen - HEADER_LEN - 3;
      var len := if size > messageLen then messageLen else size;
      assert rxBuf[..rxBufLen][HEADER_LEN + 1..HEADER_LEN + 1 + len] == rxBuf[HEADER_LEN + 1..HEADER_LEN + 1 + len];
      DeliveredConsistent(State());
      rxBufValid := false;
      return Message(rxHeaders, rxBuf[HEADER_LEN + 1..HEADER_LEN + 1 + len]);
    }

    // ---------------------------------------------------------------- sending

    /** The message area holds the symbols of `bytes`, and `crc` covers them. */
    ghost predicate Encoded(bytes: seq<bv8>, index: nat)
      reads txBuf
    {
      index == 2 * |bytes| && PREAMBLE_LEN + index <= txBuf.Length
      && txBuf[..PREAMBLE_LEN + index] == PREAMBLE + Encode(bytes)
    }

    method PutSymbols(b: bv8, high: bv8, low: bv8, index: nat, ghost bytes: seq<bv8>) returns (next: nat)
      requires Encoded(bytes, index) && PREAMBLE_LEN + index + 2 <= txBuf.Length
      requires high < 16 && low < 16 && EncodeByte(b) == [Symbol(high), Symbol(low)]
      modifies txBuf
      ensures next == index + 2 && Encoded(bytes + [b], next)
    {
      hide Symbol, High, Low;
      ghost var was := txBuf[..PREAMBLE_LEN + index];
      txBuf[PREAMBLE_LEN + index] := Symbol(high);
      txBuf[PREAMBLE_LEN + index + 1] := Symbol(low);
      next := index + 2;
      assert txBuf[..PREAMBLE_LEN + next] == was + [Symbol(high), Symbol(low)];
      assert (bytes + [b])[..|bytes|] == bytes;
    }

    method PutByte(b: bv8, index: nat, crc: bv16, ghost bytes: seq<bv8>) returns (next: nat, crc': bv16)
      requires Encoded(bytes, index) && crc == Crc.Over(Crc.INITIAL, bytes) && PREAMBLE_LEN + index + 2 <= txBuf.Length
      modifies txBuf
      ensures next == index + 2 && Encoded(bytes + [b], next) && crc' == Crc.Over(Crc.INITIAL, bytes + [b])
    {
      hide Crc.Update, Symbol;
      crc' := Crc.Update(crc, b);
      assert (bytes + [b])[..|bytes|] == bytes;
      next := PutSymbols(b, High(b), Low(b), index, bytes);
    }

    method PutBody(data: seq<bv8>) returns (index: nat, crc: bv16)
      requires txBuf.Length == TX_BUF_SIZE && txBuf[..PREAMBLE_LEN] == PREAMBLE && |data| <= MAX_MESSAGE_LEN
      modifies txBuf
      ensures Encoded(Body(txHeaders, data), index) && crc == Crc.Over(Crc.INITIAL, Body(txHeaders, data))
    {
      hide Crc.Over, ByteOf, Encode;
      ghost var body := Body(txHeaders, data);
      NothingEncoded();
      index, crc := PutByte(ByteOf(|data| + 3 + HEADER_LEN), 0, Crc.INITIAL, []);
      index, crc := PutByte(txHeaders.to, index, crc, body[..1]) by { assert body[..1] == [] + [body[0]]; }
      assert body[..2] == body[..1] + [body[1]];
      index, crc := PutByte(txHeaders.from, index, crc, body[..2]);
      assert body[..3] == body[..2] + [body[2]];
      index, crc := PutByte(txHeaders.id, index, crc, body[..3]);
      assert body[..4] == body[..3] + [body[3]];
      index, crc := PutByte(txHeaders.flags, index, crc, body[..4]);
      assert body[..5] == body[..4] + [body[4]];
      for i := 0 to |data|
        invariant Encoded(body[..5 + i], index) && crc == Crc.Over(Crc.INITIAL, body[..5 + i])
      {
        index, crc := PutByte(data[i], index, crc, body[..5 + i]);
        assert body[..6 + i] == body[..5 + i] + [data[i]];
      }
      assert body[..5 + |data|] == body;
    }

    lemma NothingEncoded()
      requires PREAMBLE_LEN <= txBuf.Length && txBuf[..PREAMBLE_LEN] == PREAMBLE
      ensures Encoded([], 0) && Crc.Over(Crc.INITIAL, []) == Crc.INITIAL
    {
    }

    method StartSending(symbols: nat)
      requires mode != Tx && symbols <= txBuf.Length
      modifies this`txBufLen, this`txIndex, this`txBit, this`txSample, this`mode
      ensures mode == Tx && txBufLen == symbols && txIndex == 0 && txBit == 0 && txSample == 0
    {
      txBufLen := symbols;
      txIndex, txBit, txSample := 0, 0, 0;
      mode := Tx;
    }

    /** Writes the whole frame behind the preamble. */
    method PutFrame(data: seq<bv8>) returns (index: nat)
      requires txBuf.Length == TX_BUF_SIZE && HasPreamble(txBuf[..]) && |data| <= MAX_MESSAGE_LEN
      modifies txBuf
      ensures Encoded(FrameOf(txHeaders, data), index) && HasPreamble(txBuf[..])
    {
      hide Crc.Over, Encode, Crc.Complement, Crc.Lo8, Crc.Hi8, High, Low, Symbol, Body;
      assert txBuf[..][..PREAMBLE_LEN] == txBuf[..PREAMBLE_LEN];
      BodyLength(txHeaders, data);
      ghost var body := Body(txHeaders, data);
      var crc;
      index, crc := PutBody(data);
      crc := Crc.Complement(crc);
      FcsNibbles(crc);
      index := PutSymbols(Crc.Lo8(crc), ((crc >> 4) & 0xf) as bv8, (crc & 0xf) as bv8, index, body);
      index := PutSymbols(Crc.Hi8(crc), ((crc >> 12) & 0xf) as bv8, ((crc >> 8) & 0xf) as bv8, index,
        body + [Crc.Lo8(crc)]);
      assert (body + [Crc.Lo8(crc)]) + [Crc.Hi8(crc)] == FrameOf(txHeaders, data);
      assert txBuf[..][..PREAMBLE_LEN] == txBuf[..PREAMBLE_LEN + index][..PREAMBLE_LEN];
    }

    /** Fills the symbol buffer and starts the transmitter. */
    method LoadAndStart(data: seq<bv8>)
      requires txBuf.Length == TX_BUF_SIZE && HasPreamble(txBuf[..]) && |data| <= MAX_MESSAGE_LEN && mode != Tx
      modifies txBuf, this`txBufLen, this`txIndex, this`txBit, this`txSample, this`mode
      ensures mode == Tx && PREAMBLE_LEN <= txBufLen <= TX_BUF_SIZE && HasPreamble(txBuf[..])
      ensures Sending() == Sender(true, line, Transmitter(PREAMBLE + Encode(FrameOf(txHeaders, data)), 0, 0, 0), txGood)
    {
      hide Encode, FrameOf, HasPreamble;
      var index := PutFrame(data);
      StartSending(index + PREAMBLE_LEN);
    }

    method SendAccepted(data: seq<bv8>)
      requires Valid() && mode != Tx && |data| <= MAX_MESSAGE_LEN
      modifies this, txBuf
      ensures Shape() && State() == Send(old(State()), data).0
    {
      hide Ask.Consistent, Encode, FrameOf, HasPreamble;
      LoadAndStart(data);
    }

    /** `send`, once any earlier transmission has ended. */
    method SendMessage(data: seq<bv8>) returns (ok: bool)
      requires Valid() && mode != Tx
      modifies this, txBuf
      ensures Shape() && (State(), ok) == Send(old(State()), data)
      ensures Valid()
    {
      hide Ask.Consistent, Encode, FrameOf, HasPreamble;
      ok := |data| <= MAX_MESSAGE_LEN;
      if ok {
        SendStarts(State(), data);
        SendAccepted(data);
      }
    }
  }
}
