/** The RF22 driver object: its buffer array and interrupt handler, over the radio's FIFOs. */
module Rf22Driver {
  import opened Rf22

  class RhRf22 {
    const buf: array<bv8>
    var mode: Mode
    var bufLen: nat
    var txBufSentIndex: nat
    var rxBufValid: bool

    // the radio
    var txFifo: Octets
    var packetLength: nat
    var onAir: Octets
    var rxFifo: Octets
    var hearing: bool
    var received: Octets
    var preamble: bool
    var overflow: bool

    ghost var accepted: seq<Octets>
    ghost var aired: seq<Octets>
    ghost var heard: seq<Octets>
    ghost var collected: seq<Octets>

    ghost predicate Valid()
      reads this`bufLen
    {
      bufLen <= buf.Length
    }

    ghost function State(): State
      requires Valid()
      reads this, buf
    {
      Rf22.State(mode, buf[..bufLen], txBufSentIndex, rxBufValid, txFifo, packetLength, onAir,
                 rxFifo, hearing, received, preamble, overflow, accepted, aired, heard, collected)
    }

    constructor (max: nat)
      ensures Valid() && fresh(buf) && buf.Length == max && State() == POWER_UP
    {
      buf := new bv8[max];
      mode, bufLen, txBufSentIndex, rxBufValid := Idle, 0, 0, false;
      txFifo, packetLength, onAir, rxFifo, hearing, received := [], 0, [], [], false, [];
      preamble, overflow := false, false;
      accepted, aired, heard, collected := [], [], [], [];
    }

    method SendFragment()
      requires Valid()
      modifies this`txFifo, this`txBufSentIndex
      ensures State() == SendNextFragment(old(State()))
    {
      if txBufSentIndex < bufLen {
        var len := bufLen - txBufSentIndex;
        if len > FIFO_SIZE - TX_ALMOST_EMPTY - 1 { len := FIFO_SIZE - TX_ALMOST_EMPTY - 1; }
        assert buf[txBufSentIndex..txBufSentIndex + len] == buf[..bufLen][txBufSentIndex..txBufSentIndex + len];
        txFifo := txFifo + buf[txBufSentIndex..txBufSentIndex + len];
        txBufSentIndex := txBufSentIndex + len;
      }
    }

    /** One octet from the receive FIFO. */
    method ReadFifo() returns (b: bv8)
      modifies this`rxFifo
      ensures rxFifo == if old(rxFifo) == [] then [] else old(rxFifo)[1..]
      ensures b == if old(rxFifo) == [] then 0 else old(rxFifo)[0]
    {
      if rxFifo == [] { return 0; }
      b := rxFifo[0];
      rxFifo := rxFifo[1..];
    }

    /** `spiBurstRead` of `n` octets from the receive FIFO into the buffer behind those in use. */
    method Burst(at: nat, n: nat)
      requires at + n <= buf.Length
      modifies this`rxFifo, buf
      ensures buf[..at + n] == old(buf[..at]) + BurstRead(old(rxFifo), n).0 && rxFifo == BurstRead(old(rxFifo), n).1
    {
      hide BurstRead;
      ghost var was, fifo := buf[..at], rxFifo;
      BurstReadPart(fifo, n);
      var i := 0;
      while i < n
        invariant 0 <= i <= n && buf[..at + i] == was + BurstRead(fifo, n).0[..i]
        invariant rxFifo == if i <= |fifo| then fifo[i..] else []
      {
        var b := ReadFifo();
        assert b == BurstRead(fifo, n).0[i];
        buf[at + i] := b;
        i := i + 1;
      }
    }

    method ReadIntoBuffer(n: nat)
      requires Valid() && bufLen + n <= buf.Length
      modifies this`rxFifo, this`bufLen, buf
      ensures Valid() && State() ==
        old(State().(buf := State().buf + BurstRead(rxFifo, n).0, rxFifo := BurstRead(rxFifo, n).1))
    {
      hide BurstRead;
      Burst(bufLen, n);
      bufLen := bufLen + n;
    }

    method ReadFragment()
      requires Valid()
      modifies this`rxFifo, this`bufLen, buf
      ensures Valid() && State() == ReadNextFragment(old(State()), buf.Length)
    {
      hide BurstRead;
      if bufLen + RX_ALMOST_FULL > buf.Length { return; }
      ReadIntoBuffer(RX_ALMOST_FULL);
    }

    method ClearReceived()
      requires Valid()
      modifies this`bufLen, this`rxBufValid
      ensures Valid() && State() == ClearRxBuf(old(State()))
    {
      bufLen := 0;
      rxBufValid := false;
    }

    method StartSending()
      requires Valid()
      modifies this`txFifo, this`txBufSentIndex, this`packetLength, this`mode
      modifies this`rxFifo, this`rxBufValid, this`hearing, this`onAir
      ensures State() == StartTransmit(old(State()))
    {
      hide SendNextFragment, SetModeTx;
      SendFragment();
      packetLength := bufLen;
      TurnOnTransmitter();
    }

    method TurnOnTransmitter()
      requires Valid()
      modifies this`mode, this`rxFifo, this`rxBufValid, this`hearing, this`onAir
      ensures State() == SetModeTx(old(State()))
    {
      if mode != Tx {
        rxFifo, rxBufValid := [], false;
        mode, hearing, onAir := Tx, false, [];
      }
    }

    method Restart()
      requires Valid()
      modifies this`txFifo, this`txBufSentIndex, this`packetLength, this`mode
      modifies this`rxFifo, this`rxBufValid, this`hearing, this`onAir
      ensures State() == RestartTransmit(old(State()))
    {
      hide StartTransmit;
      mode := Idle;
      txBufSentIndex := 0;
      StartSending();
    }

    method CopyIn(data: Octets)
      requires |data| <= buf.Length
      modifies buf
      ensures buf[..|data|] == data
    {
      var i := 0;
      while i < |data|
        invariant 0 <= i <= |data| && buf[..i] == data[..i]
      {
        buf[i] := data[i];
        i := i + 1;
      }
    }

    method SendMessage(data: Octets) returns (ok: bool)
      requires Valid() && mode != Tx
      modifies this, buf
      ensures Valid() && (ok, State()) == Rf22.Send(old(State()), data, buf.Length)
    {
      hide StartTransmit;
      bufLen, txBufSentIndex := 0, 0;
      if |data| == 0 { return false; }
      if bufLen + |data| > buf.Length { return false; }
      CopyIn(data);
      bufLen := bufLen + |data|;
      accepted := accepted + [data];
      assert buf[..bufLen] == data;
      StartSending();
      return true;
    }

    /** `recv` into a buffer of at most `room` octets, when `available` found a message. */
    method Receive(room: nat) returns (got: Octets)
      requires Valid() && rxBufValid
      modifies this`bufLen, this`rxBufValid, this`collected
      ensures Valid() && State() == Recv(old(State())).1
      ensures got == if |Recv(old(State())).0| <= room then Recv(old(State())).0 else Recv(old(State())).0[..room]
    {
      var len := if room > bufLen then bufLen else room;
      got := buf[..len];
      assert got == buf[..bufLen][..len];
      collected := collected + [buf[..bufLen]];
      ClearReceived();
    }

    method HandleFifoError()
      requires Valid()
      modifies this`txFifo, this`txBufSentIndex, this`packetLength, this`mode
      modifies this`rxFifo, this`rxBufValid, this`hearing, this`onAir, this`bufLen
      ensures Valid() && State() == OnFifoError(old(State()))
    {
      hide RestartTransmit;
      txFifo, rxFifo := [], [];
      if mode == Tx { Restart(); } else if mode == Rx { ClearReceived(); }
    }

    method HandlePacketSent()
      requires Valid()
      modifies this`mode, this`aired
      ensures State() == OnPacketSent(old(State()))
    {
      aired := aired + [onAir];
      mode := Idle;
    }

    method HandlePacketValid(len: nat) returns (ok: bool)
      requires Valid()
      modifies this`mode, this`hearing, this`rxFifo, this`bufLen, this`rxBufValid, buf
      ensures ok == !BadLength(old(State()), len, buf.Length)
      ensures Valid() && State() == OnPacketValid(old(State()), len, buf.Length)
    {
      hide BurstRead;
      mode, hearing := Idle, false;
      if len > buf.Length || len < bufLen {
        ClearReceived();
        return false;
      }
      ReadIntoBuffer(len - bufLen);
      rxBufValid := true;
      return true;
    }

    method HandleCrcError()
      requires Valid()
      modifies this`mode, this`hearing, this`rxFifo, this`bufLen, this`rxBufValid
      ensures Valid() && State() == OnCrcError(old(State()))
    {
      ClearReceived();
      rxFifo, rxBufValid := [], false;
      mode, hearing := Rx, false;
    }

    method HandlePreamble()
      requires Valid()
      modifies this`rxFifo, this`bufLen, this`rxBufValid
      ensures Valid() && State() == OnPreamble(old(State()))
    {
      rxFifo, rxBufValid := [], false;
      ClearReceived();
    }

    /** A packet sent or received, a CRC error, a preamble. */
    method HandlePacket(f: Flags, len: nat)
      requires Valid()
      modifies this`mode, this`aired, this`hearing, this`rxFifo, this`bufLen, this`rxBufValid, buf
      ensures Valid()
      ensures
        var none := f.(txAlmostEmpty := false, rxAlmostFull := false);
        State() == HandleOthers(old(State()), none, len, buf.Length)
    {
      hide SendNextFragment, ReadNextFragment, OnPacketSent, OnPacketValid, OnCrcError, OnPreamble, BadLength;
      if f.packetSent { HandlePacketSent(); }
      if f.packetValid {
        var ok := HandlePacketValid(len);
        if !ok { return; }
      }
      if f.crcError { HandleCrcError(); }
      if f.preamble { HandlePreamble(); }
    }

    /** `handleInterrupt`, with the flags and the packet length read from the radio. */
    method OnInterrupt(f: Flags, len: nat)
      requires Valid()
      modifies this, buf
      ensures Valid() && State() == HandleInterrupt(old(State()), f, len, buf.Length)
    {
      FifosFirst(State(), f, len, buf.Length);
      hide *;
      if f.ffError { HandleFifoError(); }
      if f.txAlmostEmpty { SendFragment(); }
      if f.rxAlmostFull { ReadFragment(); }
      HandlePacket(f, len);
    }
  }

  lemma BurstReadPart(fifo: Octets, n: nat)
    ensures |BurstRead(fifo, n).0| == n && BurstRead(fifo, n).1 == if n <= |fifo| then fifo[n..] else []
    ensures forall i :: 0 <= i < n ==> BurstRead(fifo, n).0[i] == if i < |fifo| then fifo[i] else 0
  {
  }

  lemma FifosFirst(s: State, f: Flags, len: nat, max: nat)
    ensures
      var s1 := if f.ffError then OnFifoError(s) else s;
      var s2 := if f.txAlmostEmpty then SendNextFragment(s1) else s1;
      var s3 := if f.rxAlmostFull then ReadNextFragment(s2, max) else s2;
      var none := f.(txAlmostEmpty := false, rxAlmostFull := false);
      HandleInterrupt(s, f, len, max) == HandleOthers(s3, none, len, max)
  {
    hide OnFifoError, SendNextFragment, ReadNextFragment, OnPacketSent, OnPacketValid, OnCrcError, OnPreamble;
    hide BadLength;
  }
}
