/** The bit-level half of the ASK receiver: start symbol search, byte decoding, length check. */
module AskFramer {
  import opened AskCode
  import Pll = AskPll

  /** What the receiver keeps between bits; `listening` is false once a complete message has ended receive mode. */
  datatype Framer = Framer(
    listening: bool, bits: bv16, active: bool, bitCount: nat,
    buf: seq<bv8>, count: nat, full: bool, bad: nat)
  {
    /** Nothing of a message has been collected yet. */
    ghost predicate Searching() {
      listening && bits <= 0xfff && (active ==> bitCount == 0 && buf == [])
    }

    /** Training bits have flushed the register and no frame is being collected. */
    ghost predicate Trained() {
      listening && !active && bits == 0xaaa
    }

    /** A frame is being collected, at a byte boundary. */
    ghost predicate Collecting(bytes: seq<bv8>) {
      listening && active && bitCount == 0 && buf == bytes && bits <= 0xfff
    }

    /** Safety of the collected prefix: writes stay inside the receive buffer. */
    ghost predicate Safe() {
      && bits <= 0xfff
      && |buf| <= MAX_PAYLOAD_LEN
      && (active ==> bitCount < 12 && (buf == [] || (7 <= count <= MAX_PAYLOAD_LEN && |buf| < count)))
    }
  }

  /** A decoded byte arrives at the receiver. */
  function AcceptByte(f: Framer, b: bv8): Framer {
    var count := if f.buf == [] then NatOf(b) else f.count;
    if f.buf == [] && (count < 7 || count > MAX_PAYLOAD_LEN) then
      f.(count := count, active := false, bad := (f.bad + 1) % 0x10000)
    else
      var buf := f.buf + [b];
      if |buf| >= count then
        f.(count := count, buf := buf, active := false, full := true, listening := false, bitCount := 0)
      else
        f.(count := count, buf := buf, bitCount := 0)
  }

  /** One recovered bit. */
  function Step(f: Framer, b: bool): Framer {
    if !f.listening then f else
    var g := f.(bits := Push(f.bits, b));
    if g.active then
      var h := g.(bitCount := g.bitCount + 1);
      if h.bitCount >= 12 then AcceptByte(h, DecodeByte(h.bits)) else h
    else if g.bits == START_SYMBOL then
      g.(active := true, bitCount := 0, buf := [])
    else g
  }

  function Run(f: Framer, bs: seq<bool>): Framer
    decreases bs
  {
    if bs == [] then f else Run(Step(f, bs[0]), bs[1..])
  }

  lemma {:induction false} RunConcat(f: Framer, a: seq<bool>, b: seq<bool>)
    ensures Run(f, a + b) == Run(Run(f, a), b)
    decreases a
  {
    if a == [] {
      assert a + b == b;
    } else {
      assert (a + b)[1..] == a[1..] + b;
      RunConcat(Step(f, a[0]), a[1..], b);
    }
  }

  lemma {:induction false} StoppedStays(f: Framer, bs: seq<bool>)
    requires !f.listening
    ensures Run(f, bs) == f
    decreases bs
  {
    if bs != [] { StoppedStays(f, bs[1..]); }
  }

  // ---------------------------------------------------------------- safety for every bit stream

  lemma PushFits(bits: bv16, b: bool)
    requires bits <= 0xfff
    ensures Push(bits, b) <= 0xfff
  {
  }

  lemma StepSafe(f: Framer, b: bool)
    requires f.Safe()
    ensures Step(f, b).Safe()
  {
    hide Push, DecodeByte;
    PushFits(f.bits, b);
  }

  // ---------------------------------------------------------------- one byte on the line

  function Register(first: bv8, second: bv8): bv16 { (first as bv16) | ((second as bv16) << 6) }

  lemma RegisterLoads(bits: bv16, s: bv8, t: bv8)
    requires bits <= 0xfff && s < 64 && t < 64
    ensures PushAll(bits, SymbolBits(s) + SymbolBits(t)) == Register(s, t) <= 0xfff
  {
    var bs := SymbolBits(s) + SymbolBits(t);
    Push4(bits, bs);
    var b1 := PushFour(bits, bs[0], bs[1], bs[2], bs[3]);
    Push4(b1, bs[4..]);
    var b2 := PushFour(b1, bs[4], bs[5], bs[6], bs[7]);
    Push4(b2, bs[8..]);
    assert bs[4..][4..] == bs[8..];
    assert bs[8..][4..] == [];
    LoadHalf(bits, s, t);
  }

  function PushFour(bits: bv16, a: bool, b: bool, c: bool, d: bool): bv16 {
    Push(Push(Push(Push(bits, a), b), c), d)
  }

  lemma Push4(bits: bv16, bs: seq<bool>)
    requires |bs| >= 4
    ensures PushAll(bits, bs) == PushAll(PushFour(bits, bs[0], bs[1], bs[2], bs[3]), bs[4..])
  {
    var c1 := Push(bits, bs[0]);
    var c2 := Push(c1, bs[1]);
    var c3 := Push(c2, bs[2]);
    assert bs[1..][1..] == bs[2..] && bs[2..][1..] == bs[3..] && bs[3..][1..] == bs[4..];
    assert PushAll(c2, bs[2..]) == PushAll(c3, bs[3..]);
  }

  lemma LoadHalf(bits: bv16, s: bv8, t: bv8)
    requires bits <= 0xfff && s < 64 && t < 64
    ensures
      var a, b := SymbolBits(s), SymbolBits(t);
      PushFour(PushFour(PushFour(bits, a[0], a[1], a[2], a[3]), a[4], a[5], b[0], b[1]), b[2], b[3], b[4], b[5])
        == Register(s, t) <= 0xfff
  {
  }

  lemma SplitRegister(s: bv8, t: bv8)
    requires s < 64 && t < 64
    ensures FirstSymbol(Register(s, t)) == s && SecondSymbol(Register(s, t)) == t
  {
  }

  /** A byte survives encoding, transmission bit by bit, and decoding. */
  lemma ByteRoundTrip(bits: bv16, b: bv8)
    requires bits <= 0xfff
    ensures DecodeByte(PushAll(bits, LineBits(EncodeByte(b)))) == b
    ensures PushAll(bits, LineBits(EncodeByte(b))) <= 0xfff
  {
    hide Join, High, Low, Symbol, Register, FirstSymbol, SecondSymbol, Decode;
    var s, t := Symbol(High(b)), Symbol(Low(b));
    DecodeSymbol(High(b));
    DecodeSymbol(Low(b));
    TwoSymbols(s, t);
    RegisterLoads(bits, s, t);
    SplitRegister(s, t);
    JoinNibbles(b);
  }

  lemma TwoSymbols(s: bv8, t: bv8)
    ensures LineBits([s, t]) == SymbolBits(s) + SymbolBits(t)
  {
    assert [s, t][1..] == [t];
    assert [t][1..] == [];
    assert LineBits([t]) == SymbolBits(t) + [];
  }

  // ---------------------------------------------------------------- training and start symbol

  /** `n` pairs of training bits. */
  function Pairs(n: nat): (bs: seq<bool>)
    ensures |bs| == 2 * n
  {
    if n == 0 then [] else [false, true] + Pairs(n - 1)
  }

  lemma RunPair(f: Framer, n: nat)
    requires n > 0
    ensures Run(f, Pairs(n)) == Run(Step(Step(f, false), true), Pairs(n - 1))
  {
    assert Pairs(n)[1..][1..] == Pairs(n - 1);
  }

  lemma {:induction false} TrainedStays(f: Framer, n: nat)
    requires f.Trained()
    ensures Run(f, Pairs(n)) == f
  {
    if n > 0 {
      RunPair(f, n);
      assert Push(0xaaa, false) == 0x555 && Push(0x555, true) == 0xaaa;
      TrainedStays(f, n - 1);
    }
  }

  /** The register after one pair of training bits never matches the start symbol when it began with one. */
  lemma PairOnTop(bits: bv16)
    requires bits <= 0xfff
    ensures var c := Push(Push(bits, false), true); c <= 0xfff && c & 0xc00 == 0x800
    ensures Push(bits, false) != START_SYMBOL
    ensures bits & 0xc00 == 0x800 ==> Push(Push(bits, false), true) != START_SYMBOL
  {
  }

  function PushPairs(bits: bv16, n: nat): bv16
    decreases n
  {
    if n == 0 then bits else PushPairs(Push(Push(bits, false), true), n - 1)
  }

  lemma {:induction false} IdleTraining(f: Framer, n: nat)
    requires f.listening && !f.active && f.bits <= 0xfff && f.bits & 0xc00 == 0x800
    ensures Run(f, Pairs(n)) == f.(bits := PushPairs(f.bits, n))
    decreases n
  {
    if n > 0 {
      RunPair(f, n);
      PairOnTop(f.bits);
      IdleTraining(f.(bits := Push(Push(f.bits, false), true)), n - 1);
    }
  }

  lemma {:induction false} ActiveTraining(f: Framer, n: nat)
    requires f.listening && f.active && f.bits <= 0xfff && f.bitCount + 2 * n < 12
    ensures Run(f, Pairs(n)) == f.(bits := PushPairs(f.bits, n), bitCount := f.bitCount + 2 * n)
    decreases n
  {
    if n > 0 {
      RunPair(f, n);
      PairOnTop(f.bits);
      ActiveTraining(f.(bits := Push(Push(f.bits, false), true), bitCount := f.bitCount + 2), n - 1);
    }
  }

  lemma SixPairs(bits: bv16)
    requires bits <= 0xfff
    ensures PushPairs(bits, 6) == 0xaaa
    ensures bits & 0xc00 == 0x800 ==> PushPairs(bits, 5) == 0xaaa
  {
    var b1 := Push(Push(bits, false), true);
    var b2 := Push(Push(b1, false), true);
    var b3 := Push(Push(b2, false), true);
    var b4 := Push(Push(b3, false), true);
    var b5 := Push(Push(b4, false), true);
    assert PushPairs(b2, 4) == PushPairs(b3, 3);
    assert PushPairs(b4, 2) == PushPairs(b5, 1);
    assert PushPairs(b2, 3) == PushPairs(b3, 2);
    assert PushPairs(b4, 1) == b5;
  }

  lemma {:induction false} PushPairsAppend(bits: bv16, n: nat)
    ensures PushPairs(bits, n + 1) == Push(Push(PushPairs(bits, n), false), true)
    decreases n
  {
    if n > 0 { PushPairsAppend(Push(Push(bits, false), true), n - 1); }
  }

  lemma {:induction false} PairsSplit(m: nat, n: nat)
    ensures Pairs(m + n) == Pairs(m) + Pairs(n)
  {
    if m > 0 { PairsSplit(m - 1, n); }
  }

  lemma TrainingByte()
    ensures DecodeByte(0xaaa) == 0xcc
  {
    assert FirstSymbol(0xaaa) == SYMBOLS[12] && SecondSymbol(0xaaa) == SYMBOLS[12];
    assert Symbol(12) == SYMBOLS[12];
    DecodeSymbol(12);
  }

  /** The last pair of the first byte after a false start. */
  lemma DropAtLastPair(g: Framer)
    requires g.listening && g.active && g.bitCount == 10 && g.buf == []
    requires Push(Push(g.bits, false), true) == 0xaaa
    ensures
      var d := Step(Step(g, false), true);
      d.Trained() && d.full == g.full && d.bad == (g.bad + 1) % 0x10000
  {
    hide Push, DecodeByte;
    TrainingByte();
    assert Step(g, false) == g.(bits := Push(g.bits, false), bitCount := 11);
  }

  /** A false start inside the training sequence collects the byte 0xcc, which is no legal count, and is dropped. */
  lemma FalseStartDropped(f: Framer, n: nat)
    requires f.listening && f.active && f.bits <= 0xfff && f.bitCount == 0 && f.buf == []
    requires n >= 6
    ensures
      var g := Run(f, Pairs(n));
      g.Trained() && g.full == f.full && g.bad == (f.bad + 1) % 0x10000
  {
    hide Push, Run, Step, Pairs;
    PairsSplit(5, n - 5);
    ActiveTraining(f, 5);
    RunConcat(f, Pairs(5), Pairs(n - 5));
    var g := Run(f, Pairs(5));
    RunPair(g, n - 5);
    PushPairsAppend(f.bits, 5);
    SixPairs(f.bits);
    DropAtLastPair(g);
    TrainedStays(Step(Step(g, false), true), n - 6);
  }

  /** Whatever the register holds, and even when noise has just completed a start symbol, seven training pairs
      clear it. */
  lemma TrainingClears(f: Framer, n: nat)
    requires f.Searching() && n >= 7
    ensures
      var g := Run(f, Pairs(n));
      g.Trained() && g.full == f.full && (g.bad == f.bad || g.bad == (f.bad + 1) % 0x10000)
  {
    if f.active {
      FalseStartDropped(f, n);
    } else {
      FirstPair(f);
      RunPair(f, n);
      var g := Step(Step(f, false), true);
      if g.active {
        FalseStartDropped(g, n - 1);
      } else {
        IdleClears(g, n - 1);
      }
    }
  }

  lemma FirstPair(f: Framer)
    requires f.listening && !f.active && f.bits <= 0xfff
    ensures
      var g := Step(Step(f, false), true);
      g.listening && g.bits <= 0xfff && g.bits & 0xc00 == 0x800 && g.full == f.full && g.bad == f.bad
      && (g.active ==> g.bitCount == 0 && g.buf == [])
  {
    PairOnTop(f.bits);
  }

  lemma IdleClears(g: Framer, n: nat)
    requires g.listening && !g.active && g.bits <= 0xfff && g.bits & 0xc00 == 0x800 && n >= 5
    ensures Run(g, Pairs(n)) == g.(bits := 0xaaa)
  {
    hide Push, Run, Step, Pairs;
    SixPairs(g.bits);
    IdleTraining(g, 5);
    PairsSplit(5, n - 5);
    RunConcat(g, Pairs(5), Pairs(n - 5));
    TrainedStays(Run(g, Pairs(5)), n - 5);
  }

  const START_BITS: seq<bool> := [false, false, false, true, true, true, false, false, true, true, false, true]

  /** The last two preamble symbols start the frame, and no earlier bit does. */
  lemma StartRecognised(f: Framer)
    requires f.Trained()
    ensures
      var g := Run(f, START_BITS);
      g == f.(bits := START_SYMBOL, active := true, bitCount := 0, buf := [])
    ensures forall k :: 0 <= k < 12 ==> Run(f, START_BITS[..k]) == f.(bits := PushAll(0xaaa, START_BITS[..k]))
  {
    forall k | 0 <= k < 12
      ensures Run(f, START_BITS[..k]) == f.(bits := PushAll(0xaaa, START_BITS[..k]))
    {
      NoEarlyStart(f, k);
    }
    assert START_BITS == START_BITS[..11] + [true];
    RunConcat(f, START_BITS[..11], [true]);
    StartRegister(11);
  }

  const START_REGISTERS: seq<bv16> :=
    [0xaaa, 0x555, 0x2aa, 0x155, 0x8aa, 0xc55, 0xe2a, 0x715, 0x38a, 0x9c5, 0xce2, 0x671]

  lemma StartRegister(k: nat)
    requires k < 12
    ensures PushAll(0xaaa, START_BITS[..k]) == START_REGISTERS[k] != START_SYMBOL
  {
    assert k in {0, 1, 2, 3, 4, 5, 6, 7, 8, 9, 10, 11};
    if k > 0 {
      StartRegister(k - 1);
      assert START_BITS[..k] == START_BITS[..k-1] + [START_BITS[k-1]];
      PushAllAppend(0xaaa, START_BITS[..k-1], START_BITS[k-1]);
    }
  }

  lemma {:induction false} PushAllAppend(bits: bv16, bs: seq<bool>, b: bool)
    ensures PushAll(bits, bs + [b]) == Push(PushAll(bits, bs), b)
    decreases bs
  {
    if bs == [] {
      assert [b][1..] == [];
    } else {
      assert (bs + [b])[1..] == bs[1..] + [b];
      PushAllAppend(Push(bits, bs[0]), bs[1..], b);
    }
  }

  lemma {:induction false} NoEarlyStart(f: Framer, k: nat)
    requires f.Trained() && k < 12
    ensures Run(f, START_BITS[..k]) == f.(bits := PushAll(0xaaa, START_BITS[..k]))
  {
    hide Push;
    if k > 0 {
      NoEarlyStart(f, k - 1);
      StartRegister(k);
      assert START_BITS[..k] == START_BITS[..k-1] + [START_BITS[k-1]];
      RunConcat(f, START_BITS[..k-1], [START_BITS[k-1]]);
      assert Run(Run(f, START_BITS[..k-1]), [START_BITS[k-1]]) == Step(Run(f, START_BITS[..k-1]), START_BITS[k-1]);
      PushAllAppend(0xaaa, START_BITS[..k-1], START_BITS[k-1]);
    }
  }

  // ---------------------------------------------------------------- the frame

  lemma {:induction false} CollectBits(f: Framer, bs: seq<bool>)
    requires f.listening && f.active && f.bitCount + |bs| < 12
    ensures Run(f, bs) == f.(bits := PushAll(f.bits, bs), bitCount := f.bitCount + |bs|)
    decreases bs
  {
    hide Push;
    if bs != [] {
      CollectBits(Step(f, bs[0]), bs[1..]);
    }
  }

  /** Twelve line bits of one byte hand exactly that byte to the frame being collected. */
  lemma CollectByte(f: Framer, b: bv8)
    requires f.Collecting(f.buf)
    ensures
      var bits := PushAll(f.bits, LineBits(EncodeByte(b)));
      bits <= 0xfff && Run(f, LineBits(EncodeByte(b))) == AcceptByte(f.(bits := bits, bitCount := 12), b)
  {
    hide Push, Run, LineBits, DecodeByte, AcceptByte, EncodeByte;
    var bs := LineBits(EncodeByte(b));
    ByteRoundTrip(f.bits, b);
    assert bs == bs[..11] + [bs[11]];
    RunConcat(f, bs[..11], [bs[11]]);
    CollectBits(f, bs[..11]);
    PushAllAppend(f.bits, bs[..11], bs[11]);
    var g := f.(bits := PushAll(f.bits, bs[..11]), bitCount := 11);
    RunOne(g, bs[11]);
  }

  lemma RunOne(f: Framer, b: bool)
    ensures Run(f, [b]) == Step(f, b)
  {
    assert [b][1..] == [];
  }

  lemma EncodeFirst(bytes: seq<bv8>)
    requires bytes != []
    ensures LineBits(Encode(bytes)) == LineBits(EncodeByte(bytes[0])) + LineBits(Encode(bytes[1..]))
  {
    assert bytes == [bytes[0]] + bytes[1..];
    EncodeConcat([bytes[0]], bytes[1..]);
    assert [bytes[0]][..0] == [];
    assert Encode([bytes[0]]) == [] + EncodeByte(bytes[0]);
    LineBitsConcat(EncodeByte(bytes[0]), Encode(bytes[1..]));
  }

  /** A frame whose first byte is its own length, within the limits of the receiver. */
  predicate LegalFrame(frame: seq<bv8>) {
    7 <= |frame| <= MAX_PAYLOAD_LEN && NatOf(frame[0]) == |frame|
  }

  lemma {:induction false} CollectRest(f: Framer, frame: seq<bv8>, k: nat)
    requires LegalFrame(frame) && k < |frame|
    requires f.Collecting(frame[..k]) && (k > 0 ==> f.count == |frame|)
    ensures
      var g := Run(f, LineBits(Encode(frame[k..])));
      !g.listening && !g.active && g.full && g.buf == frame && g.bad == f.bad
    decreases |frame| - k
  {
    hide Push, PushAll, Run, LineBits, Encode, Step;
    EncodeFirst(frame[k..]);
    assert frame[k..][1..] == frame[k + 1..];
    var head, rest := LineBits(EncodeByte(frame[k])), LineBits(Encode(frame[k + 1..]));
    RunConcat(f, head, rest);
    CollectByte(f, frame[k]);
    var g := Run(f, head);
    assert g.buf == frame[..k + 1];
    if k + 1 < |frame| {
      CollectRest(g, frame, k + 1);
    } else {
      assert frame[..k + 1] == frame;
      StoppedStays(g, rest);
    }
  }

  lemma PreambleBits()
    ensures LineBits(PREAMBLE) == Pairs(18) + START_BITS
  {
    assert LineBits([0x38, 0x2c]) == START_BITS by { TwoLast(); }
    assert PREAMBLE == PREAMBLE[..6] + [0x38, 0x2c];
    LineBitsConcat(PREAMBLE[..6], [0x38, 0x2c]);
    TrainingBits(PREAMBLE[..6]);
  }

  lemma TwoLast()
    ensures LineBits([0x38, 0x2c]) == START_BITS
  {
    TwoSymbols(0x38, 0x2c);
  }

  lemma {:induction false} TrainingBits(s: seq<bv8>)
    requires forall i :: 0 <= i < |s| ==> s[i] == 0x2a
    ensures LineBits(s) == Pairs(3 * |s|)
  {
    hide Pairs, SymbolBits;
    if s == [] {
      PairsSplit(0, 0);
    } else {
      TrainingBits(s[1..]);
      PairsSplit(3, 3 * |s| - 3);
      TrainingSymbol();
    }
  }

  lemma TrainingSymbol()
    ensures SymbolBits(0x2a) == Pairs(3)
  {
    assert Pairs(1) == [false, true];
    assert Pairs(2) == [false, true, false, true];
    assert Pairs(3) == [false, true, false, true, false, true];
  }

  /** Training, start symbol and an encoded frame leave exactly that frame in the receive buffer. */
  lemma FrameReceived(f: Framer, n: nat, frame: seq<bv8>)
    requires f.Searching() && n >= 7 && LegalFrame(frame)
    ensures
      var g := Run(f, Pairs(n) + START_BITS + LineBits(Encode(frame)));
      !g.listening && !g.active && g.full && g.buf == frame
      && (g.bad == f.bad || g.bad == (f.bad + 1) % 0x10000)
  {
    hide Push, PushAll, Run, LineBits, Encode, Step, Pairs;
    var bs := LineBits(Encode(frame));
    RunConcat(f, Pairs(n) + START_BITS, bs);
    RunConcat(f, Pairs(n), START_BITS);
    TrainingClears(f, n);
    var g := Run(f, Pairs(n));
    StartRecognised(g);
    assert frame[..0] == [] && frame[0..] == frame;
    CollectRest(Run(g, START_BITS), frame, 0);
  }

  // ---------------------------------------------------------------- after silence

  /** No two neighbouring ones in the register. */
  predicate Sparse(bits: bv16) { bits <= 0xfff && bits & (bits >> 1) == 0 }

  predicate Newest(bits: bv16) { bits & 0x800 != 0 }

  lemma PushSparse(bits: bv16, b: bool)
    requires Sparse(bits) && !(Newest(bits) && b)
    ensures Sparse(Push(bits, b)) && Newest(Push(bits, b)) == b && Push(bits, b) != START_SYMBOL
  {
  }

  /** Bits without two ones in a row never look like the start symbol. */
  lemma {:induction false} SparseRun(f: Framer, d: seq<bool>)
    requires f.listening && !f.active && Sparse(f.bits) && Pll.NoPair(Newest(f.bits), d)
    ensures
      var g := Run(f, d);
      g.listening && !g.active
    decreases d
  {
    if d != [] {
      PushSparse(f.bits, d[0]);
      hide Sparse, Newest, Push;
      SparseRun(Step(f, d[0]), d[1..]);
    }
  }

  function Zeros(n: nat): (bs: seq<bool>) { if n == 0 then [] else [false] + Zeros(n - 1) }

  /** The largest register whose newest `n` bits are zero. */
  function Limit(n: nat): bv16 {
    match n
    case 0 => 0xfff case 1 => 0x7ff case 2 => 0x3ff case 3 => 0x1ff case 4 => 0xff case 5 => 0x7f
    case 6 => 0x3f case 7 => 0x1f case 8 => 0xf case 9 => 0x7 case 10 => 0x3 case 11 => 0x1 case _ => 0
  }

  lemma PushZero(bits: bv16, n: nat)
    requires n < 12 && bits <= Limit(n)
    ensures Push(bits, false) <= Limit(n + 1) && Push(bits, false) != START_SYMBOL
  {
    match n
    case 0 => case 1 => case 2 => case 3 => case 4 => case 5 =>
    case 6 => case 7 => case 8 => case 9 => case 10 => case _ =>
  }

  lemma StepZero(g: Framer, n: nat)
    requires n < 12 && g.bits <= Limit(n) && g.listening && !g.active
    ensures Step(g, false) == g.(bits := Push(g.bits, false)) && Push(g.bits, false) <= Limit(n + 1)
  {
    hide Push, Limit, AcceptByte, DecodeByte;
    PushZero(g.bits, n);
  }

  /** Zeros push out what the register of a receiver outside a frame holds, and never look like the start symbol. */
  lemma {:induction false} ZerosRun(f: Framer, n: nat)
    requires f.listening && !f.active && f.bits <= 0xfff && n <= 12
    ensures
      var g := Run(f, Zeros(n));
      g.bits <= Limit(n) && g == f.(bits := g.bits)
  {
    if n > 0 {
      ZerosRun(f, n - 1);
      OneMoreZero(f, n - 1);
    }
    hide Push, AcceptByte, DecodeByte;
  }

  lemma OneMoreZero(f: Framer, n: nat)
    requires f.listening && !f.active && n < 12
    requires
      var g := Run(f, Zeros(n));
      g.bits <= Limit(n) && g == f.(bits := g.bits)
    ensures
      var g := Run(f, Zeros(n + 1));
      g.bits <= Limit(n + 1) && g == f.(bits := g.bits)
  {
    hide Push, Limit, Run, Zeros, Step;
    ZerosAppend(n);
    RunConcat(f, Zeros(n), [false]);
    var g := Run(f, Zeros(n));
    StepZero(g, n);
    RunOne(g, false);
  }

  lemma {:induction false} ZerosAppend(n: nat)
    ensures Zeros(n + 1) == Zeros(n) + [false]
  {
    if n > 0 { ZerosAppend(n - 1); }
  }

  lemma {:induction false} OnlyZeros(f: Framer, d: seq<bool>)
    requires f.listening && !f.active && f.bits <= 0xfff && forall i :: 0 <= i < |d| ==> !d[i]
    ensures
      var g := Run(f, d);
      g.bits <= 0xfff && g == f.(bits := g.bits)
    decreases d
  {
    if d != [] {
      StepZero(f, 0);
      hide Push, Step;
      OnlyZeros(Step(f, false), d[1..]);
    }
  }

  /** A register one bit short of the start symbol. */
  predicate OneShort(bits: bv16) { Push(bits, true) == START_SYMBOL }

  /** Whatever its first bit is, a detection that ends in zeros does not start a frame, unless the register is one
      bit short of the start symbol. */
  lemma SettleRun(f: Framer, d: seq<bool>)
    requires f.listening && !f.active && f.bits <= 0xfff && Pll.ZerosAfterFirst(d) && !OneShort(f.bits)
    ensures
      var g := Run(f, d);
      g.bits <= 0xfff && g == f.(bits := g.bits)
  {
    if d != [] {
      SettleStep(f, d[0]);
      hide Push, Step;
      OnlyZeros(Step(f, d[0]), d[1..]);
    }
  }

  lemma SettleStep(f: Framer, b: bool)
    requires f.listening && !f.active && f.bits <= 0xfff && !OneShort(f.bits)
    ensures Step(f, b) == f.(bits := Push(f.bits, b)) && Push(f.bits, b) <= 0xfff
  {
    PushFits(f.bits, b);
    PushZero(f.bits, 0);
    hide Push, AcceptByte, DecodeByte;
  }
}
