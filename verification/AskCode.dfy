/** The 4-to-6 line code of the ASK modem and the layout of its frames. */
module AskCode {
  import Crc

  const MAX_PAYLOAD_LEN := 67
  const HEADER_LEN := 4
  const MAX_MESSAGE_LEN := MAX_PAYLOAD_LEN - HEADER_LEN - 3
  const PREAMBLE_LEN := 8
  const START_SYMBOL: bv16 := 0xb38
  const BROADCAST_ADDRESS: bv8 := 0xff

  const SYMBOLS: seq<bv8> := [
    0xd, 0xe, 0x13, 0x15, 0x16, 0x19, 0x1a, 0x1c,
    0x23, 0x25, 0x26, 0x29, 0x2a, 0x2c, 0x32, 0x34
  ]

  /** Twelve training symbols' worth of alternating bits, then the two halves of the start symbol. */
  const PREAMBLE: seq<bv8> := [0x2a, 0x2a, 0x2a, 0x2a, 0x2a, 0x2a, 0x38, 0x2c]

  datatype Headers = Headers(to: bv8, from: bv8, id: bv8, flags: bv8)

  function ByteOf(n: nat): bv8
    requires n < 256
  {
    n as bv8
  }

  function NatOf(b: bv8): nat { b as nat }

  lemma CountByte(n: nat)
    requires 7 <= n <= MAX_PAYLOAD_LEN
    ensures NatOf(ByteOf(n)) == n
  {
  }

  // ---------------------------------------------------------------- symbols

  /** The first index at or after `i`, within `count` entries, that holds the symbol; 0 when there is none. */
  function Search(table: seq<bv8>, symbol: bv8, i: nat, count: nat): (r: nat)
    requires i + count <= |table|
    ensures r == 0 || (i <= r < i + count && table[r] == symbol)
    decreases count
  {
    if count == 0 then 0
    else if symbol == table[i] then i
    else Search(table, symbol, i + 1, count - 1)
  }

  /** Bit 5 of a symbol tells which half of the table holds it. */
  function SearchStart(symbol: bv8): nat { if (symbol >> 2) & 8 != 0 then 8 else 0 }

  function Decode(symbol: bv8): bv8 { Search(SYMBOLS, symbol, SearchStart(symbol), 8) as bv8 }

  function High(b: bv8): (n: bv8)
    ensures n < 16
  {
    b >> 4
  }

  function Low(b: bv8): (n: bv8)
    ensures n < 16
  {
    b & 0xf
  }

  function Join(high: bv8, low: bv8): bv8 { (high << 4) | low }

  lemma JoinNibbles(b: bv8)
    ensures Join(High(b), Low(b)) == b
  {
  }

  function Symbol(n: bv8): bv8
    requires n < 16
  {
    SYMBOLS[n as int]
  }

  /** A byte goes out as two symbols, high nibble first. */
  function EncodeByte(b: bv8): (s: seq<bv8>)
    ensures |s| == 2
  {
    [Symbol(High(b)), Symbol(Low(b))]
  }

  function Encode(bytes: seq<bv8>): (s: seq<bv8>)
    ensures |s| == 2 * |bytes|
  {
    if bytes == [] then [] else Encode(bytes[..|bytes|-1]) + EncodeByte(bytes[|bytes|-1])
  }

  lemma {:induction false} EncodeConcat(a: seq<bv8>, b: seq<bv8>)
    ensures Encode(a + b) == Encode(a) + Encode(b)
  {
    if b == [] {
      assert a + b == a;
    } else {
      assert (a + b)[..|a + b|-1] == a + b[..|b|-1];
      EncodeConcat(a, b[..|b|-1]);
    }
  }

  lemma {:induction false} SearchSkips(table: seq<bv8>, symbol: bv8, i: nat, count: nat, k: nat)
    requires i + count <= |table| && k <= count
    requires forall j :: i <= j < i + k ==> table[j] != symbol
    ensures Search(table, symbol, i, count) == Search(table, symbol, i + k, count - k)
    decreases k
  {
    if k > 0 { SearchSkips(table, symbol, i + 1, count - 1, k - 1); }
  }

  /** The table is injective, and its halves are told apart by bit 5. */
  lemma SymbolFacts(n: nat)
    requires n < 16
    ensures SYMBOLS[n] < 64
    ensures SearchStart(SYMBOLS[n]) == if n < 8 then 0 else 8
    ensures forall m :: 0 <= m < n ==> SYMBOLS[m] != SYMBOLS[n]
  {
    assert n in {0, 1, 2, 3, 4, 5, 6, 7, 8, 9, 10, 11, 12, 13, 14, 15};
  }

  lemma DecodeSymbol(n: bv8)
    requires n < 16
    ensures Decode(Symbol(n)) == n && Symbol(n) < 64
  {
    var k := n as int;
    var h := if k < 8 then 0 else 8;
    SymbolFacts(k);
    SearchSkips(SYMBOLS, SYMBOLS[k], h, 8, k - h);
  }

  // ---------------------------------------------------------------- bits on the line

  /** The six bits of a symbol, least significant first. */
  function SymbolBits(s: bv8): (bs: seq<bool>)
    ensures |bs| == 6
  {
    [s & 1 != 0, s & 2 != 0, s & 4 != 0, s & 8 != 0, s & 0x10 != 0, s & 0x20 != 0]
  }

  /** All bits of a symbol buffer, in the order they go on the line. */
  function LineBits(symbols: seq<bv8>): (bs: seq<bool>)
    ensures |bs| == 6 * |symbols|
  {
    if symbols == [] then [] else SymbolBits(symbols[0]) + LineBits(symbols[1..])
  }

  lemma {:induction false} LineBitsConcat(a: seq<bv8>, b: seq<bv8>)
    ensures LineBits(a + b) == LineBits(a) + LineBits(b)
  {
    if a == [] {
      assert a + b == b;
    } else {
      assert (a + b)[1..] == a[1..] + b;
      LineBitsConcat(a[1..], b);
    }
  }

  // ---------------------------------------------------------------- the receiver's shift register

  /** The 12-bit receive register after one more bit, newest bit on top. */
  function Push(bits: bv16, b: bool): bv16 {
    if b then (bits >> 1) | 0x800 else bits >> 1
  }

  function PushAll(bits: bv16, bs: seq<bool>): bv16
    decreases bs
  {
    if bs == [] then bits else PushAll(Push(bits, bs[0]), bs[1..])
  }

  function FirstSymbol(bits: bv16): bv8 { (bits & 0x3f) as bv8 }

  function SecondSymbol(bits: bv16): bv8 { ((bits >> 6) & 0xff) as bv8 }

  /** The byte in a full register: the six low bits are the high nibble. */
  function DecodeByte(bits: bv16): bv8 {
    Join(Decode(FirstSymbol(bits)), Decode(SecondSymbol(bits)))
  }
}
