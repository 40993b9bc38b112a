/** The serial driver object: byte-by-byte updates that follow the parser and printer of SerialFraming. */
module SerialDriver {
  import Crc
  import opened SerialFraming

  class RhSerial {
    const thisAddress: bv8
    const promiscuous: bool
    var input: seq<bv8>    // octets waiting in the serial port
    var output: seq<bv8>   // octets written to the serial port

    var rxState: RxState
    var rxFcs: bv16
    var rxRecdFcs: bv16
    const rxBuf: array<bv8>
    var rxBufLen: nat
    var rxBufValid: bool
    var rxBad: nat
    var rxGood: nat
    var rxHeaders: Headers

    var txFcs: bv16
    var txHeaders: Headers

    ghost predicate Valid()
      reads this, rxBuf
    {
      rxBuf.Length == MAX_PAYLOAD_LEN && rxBufLen <= MAX_PAYLOAD_LEN
    }

    ghost function State(): Parser
      reads this, rxBuf
    {
      Parser(rxState, rxFcs, rxRecdFcs, rxBuf[..], rxBufLen, rxBufValid, rxBad, rxGood, rxHeaders,
             thisAddress, promiscuous)
    }

    constructor (address: bv8, promiscuous: bool)
      ensures Valid() && fresh(rxBuf) && State().Ready() && input == [] && output == []
      ensures State().address == address && State().promiscuous == promiscuous
    {
      thisAddress, this.promiscuous := address, promiscuous;
      input, output := [], [];
      rxState, rxFcs, rxRecdFcs := Idle, Crc.INITIAL, 0;
      rxBuf := new bv8[MAX_PAYLOAD_LEN](_ => 0);
      rxBufLen, rxBufValid, rxBad, rxGood := 0, false, 0, 0;
      rxHeaders := Headers(0, 0, 0, 0);
      txFcs, txHeaders := Crc.INITIAL, Headers(BROADCAST_ADDRESS, BROADCAST_ADDRESS, 0, 0);
    }

    method ClearRxBuf()
      modifies this`rxBufValid, this`rxFcs, this`rxBufLen
      ensures State() == Clear(old(State()))
    {
      rxBufValid := false;
      rxFcs := Crc.INITIAL;
      rxBufLen := 0;
    }

    method AppendRxBuf(ch: bv8)
      requires Valid()
      modifies this`rxFcs, this`rxBufLen, rxBuf
      ensures Valid() && State() == Append(old(State()), ch)
    {
      hide Crc.Update;
      if rxBufLen < MAX_PAYLOAD_LEN {
        rxBuf[rxBufLen] := ch;
        rxBufLen := rxBufLen + 1;
        rxFcs := Crc.Update(rxFcs, ch);
        assert rxBuf[..] == old(rxBuf[..])[old(rxBufLen) := ch];
      }
    }

    method ValidateRxBuf()
      requires Valid()
      modifies this`rxBad, this`rxGood, this`rxHeaders, this`rxBufValid
      ensures State() == Check(old(State()))
    {
      if rxRecdFcs != rxFcs {
        rxBad := (rxBad + 1) % 0x10000;
        return;
      }
      rxHeaders := Headers(rxBuf[0], rxBuf[1], rxBuf[2], rxBuf[3]);
      if promiscuous || rxHeaders.to == thisAddress || rxHeaders.to == BROADCAST_ADDRESS {
        rxGood := (rxGood + 1) % 0x10000;
        rxBufValid := true;
      }
    }

    method HandleRx(ch: bv8)
      requires Valid()
      modifies this`rxState, this`rxFcs, this`rxRecdFcs, this`rxBufLen, this`rxBufValid
      modifies this`rxBad, this`rxGood, this`rxHeaders, rxBuf
      ensures Valid() && State() == Handle(old(State()), ch)
    {
      hide Crc.Update, Upper, WithLower, Append, Check;
      match rxState {
        case Initialising =>
        case Idle =>
          if ch == DLE { rxState := Escaped; }
        case Escaped =>
          if ch == STX {
            ClearRxBuf();
            rxState := Data;
          } else {
            rxState := Idle;
          }
        case Data =>
          if ch == DLE {
            rxState := Escape;
          } else {
            AppendRxBuf(ch);
          }
        case Escape =>
          if ch == ETX {
            rxFcs := Crc.Update(rxFcs, DLE);
            rxFcs := Crc.Update(rxFcs, ETX);
            rxState := WaitFcs1;
          } else if ch == DLE {
            AppendRxBuf(ch);
            rxState := Data;
          } else {
            rxState := Idle;
          }
        case WaitFcs1 =>
          rxRecdFcs := Upper(ch);
          rxState := WaitFcs2;
        case WaitFcs2 =>
          rxRecdFcs := WithLower(rxRecdFcs, ch);
          rxState := Idle;
          ValidateRxBuf();
      }
    }

    method Available() returns (ok: bool)
      requires Valid()
      modifies this`rxState, this`rxFcs, this`rxRecdFcs, this`rxBufLen, this`rxBufValid
      modifies this`rxBad, this`rxGood, this`rxHeaders, this`input, rxBuf
      ensures Valid() && (State(), input) == Poll(old(State()), old(input)) && ok == rxBufValid
    {
      hide Handle;
      while !rxBufValid && input != []
        invariant Valid() && Poll(State(), input) == Poll(old(State()), old(input))
        decreases |input|
      {
        var ch := input[0];
        input := input[1..];
        HandleRx(ch);
      }
      return rxBufValid;
    }

    method Receive(size: nat) returns (r: Received)
      requires Valid()
      modifies this`rxState, this`rxFcs, this`rxRecdFcs, this`rxBufLen, this`rxBufValid
      modifies this`rxBad, this`rxGood, this`rxHeaders, this`input, rxBuf
      ensures Valid() && (State(), input, r) == Recv(old(State()), old(input), size)
    {
      hide Poll;
      var ok := Available();
      if !ok { return Nothing; }
      var end := HEADER_LEN + CopyLength(rxBufLen, size);
      if end > MAX_PAYLOAD_LEN {
        r := Overread;
      } else {
        assert rxBuf[HEADER_LEN..end] == rxBuf[..][HEADER_LEN..end];
        r := SerialFraming.Some(Message(rxHeaders, rxBuf[HEADER_LEN..end]));
      }
      ClearRxBuf();
    }

    // ---------------------------------------------------------------- sending

    /** Since the state (`out`, `fcs`) exactly the octets `sent` have been written. */
    ghost predicate Sent(out: seq<bv8>, fcs: bv16, sent: seq<bv8>)
      reads this`output, this`txFcs
    {
      output == out + StuffAll(sent) && txFcs == Crc.Over(fcs, sent)
    }

    /** Writes one octet, doubled if it is DLE, and folds it into the check sequence. */
    method TxData(ch: bv8, ghost out: seq<bv8>, ghost fcs: bv16, ghost sent: seq<bv8>)
      requires Sent(out, fcs, sent)
      modifies this`output, this`txFcs
      ensures output == old(output) + Stuff(ch) && txFcs == Crc.Update(old(txFcs), ch)
      ensures Sent(out, fcs, sent + [ch])
    {
      hide Crc.Update;
      if ch == DLE { output := output + [DLE]; }
      output := output + [ch];
      txFcs := Crc.Update(txFcs, ch);
      assert (sent + [ch])[..|sent|] == sent;
    }

    /** The headers, then the payload. */
    method TxContent(data: seq<bv8>)
      modifies this`output, this`txFcs
      ensures Sent(old(output), old(txFcs), Content(Message(txHeaders, data)))
    {
      hide Sent, Stuff, Crc.Update;
      ghost var out, fcs := output, txFcs;
      var h := txHeaders;
      ghost var head := [h.to, h.from, h.id, h.flags];
      assert [] + [h.to] == [h.to];
      assert [h.to] + [h.from] == [h.to, h.from];
      assert [h.to, h.from] + [h.id] == [h.to, h.from, h.id];
      assert [h.to, h.from, h.id] + [h.flags] == head == head + data[..0];
      StartSent();
      TxData(h.to, out, fcs, []);
      TxData(h.from, out, fcs, [h.to]);
      TxData(h.id, out, fcs, [h.to, h.from]);
      TxData(h.flags, out, fcs, [h.to, h.from, h.id]);
      for i := 0 to |data|
        invariant Sent(out, fcs, head + data[..i])
      {
        TxData(data[i], out, fcs, head + data[..i]);
        assert (head + data[..i]) + [data[i]] == head + data[..i + 1];
      }
      assert data[..|data|] == data;
    }

    lemma StartSent()
      ensures Sent(output, txFcs, [])
    {
    }

    method Send(data: seq<bv8>)
      modifies this`output, this`txFcs
      ensures output == old(output) + Frame(Message(txHeaders, data))
    {
      hide Crc.Update, Crc.Lo8, Crc.Hi8, Content, StuffAll, Crc.Over, Fcs;
      ghost var content := Content(Message(txHeaders, data));
      txFcs := Crc.INITIAL;
      output := output + [DLE];
      output := output + [STX];
      TxContent(data);
      output := output + [DLE];
      txFcs := Crc.Update(txFcs, DLE);
      output := output + [ETX];
      txFcs := Crc.Update(txFcs, ETX);
      FcsOfTrailer(content);
      output := output + [Crc.Hi8(txFcs)];
      output := output + [Crc.Lo8(txFcs)];
      assert output == old(output) + ([DLE, STX] + StuffAll(content) + [DLE, ETX] + [Crc.Hi8(txFcs), Crc.Lo8(txFcs)]);
    }
  }
}
