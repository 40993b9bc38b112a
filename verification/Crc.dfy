/** The CCITT CRC-16 that the ASK modem and the serial driver use as frame check sequence. */
module Crc {

  const INITIAL: bv16 := 0xffff
  const GOOD: bv16 := 0xf0b8

  // ---------------------------------------------------------------- the byte-wise update

  /** The byte fed back into the register: the source's two assignments to `data`. */
  function Feedback(crc: bv16, data: bv8): bv8 {
    var d := data ^ ((crc & 0xff) as bv8);
    d ^ (d << 4)
  }

  function Combine(e: bv8, high: bv16): bv16 {
    (((e as bv16) << 8) | high) ^ ((e >> 4) as bv16) ^ ((e as bv16) << 3)
  }

  /** One step of the running CRC, on 16-bit and 8-bit registers as the source declares them. */
  function Update(crc: bv16, data: bv8): bv16 { Combine(Feedback(crc, data), crc >> 8) }

  /** The running CRC over a byte string. */
  function Over(crc: bv16, s: seq<bv8>): bv16 {
    if s == [] then crc else Update(Over(crc, s[..|s|-1]), s[|s|-1])
  }

  function Complement(x: bv16): bv16 { !x }

  function Lo8(x: bv16): bv8 { (x & 0xff) as bv8 }

  function Hi8(x: bv16): bv8 { (x >> 8) as bv8 }

  lemma {:induction false} OverConcat(c: bv16, s: seq<bv8>, t: seq<bv8>)
    ensures Over(c, s + t) == Over(Over(c, s), t)
  {
    if t == [] {
      assert s + t == s;
    } else {
      assert (s + t)[..|s + t|-1] == s + t[..|t|-1];
      OverConcat(c, s, t[..|t|-1]);
    }
  }

  // ---------------------------------------------------------------- bit-serial reference

  function Xor(a: bv16, b: bv16): bv16 { a ^ b }

  function Half(a: bv16): bv16 { a >> 1 }

  predicate Odd(a: bv16) { a & 1 != 0 }

  function Bit(b: bool): bv16 { if b then 1 else 0 }

  /** One shift of the reflected register for x^16 + x^12 + x^5 + 1. */
  function ShiftBit(crc: bv16): bv16 {
    if Odd(crc) then Xor(Half(crc), 0x8408) else Half(crc)
  }

  function Shift(crc: bv16, n: nat): bv16
    decreases n
  {
    if n == 0 then crc else Shift(ShiftBit(crc), n - 1)
  }

  /** The shift register fed with one message bit after the other. */
  function OverBits(crc: bv16, bs: seq<bool>): bv16
    decreases bs
  {
    if bs == [] then crc else OverBits(ShiftBit(Xor(crc, Bit(bs[0]))), bs[1..])
  }

  /** The lowest `n` bits of a word in transmission order, least significant first. */
  function BitsOfWord(w: bv16, n: nat): (bs: seq<bool>)
    ensures |bs| == n
    decreases n
  {
    if n == 0 then [] else [Odd(w)] + BitsOfWord(Half(w), n - 1)
  }

  function BitsOf(s: seq<bv8>): (bs: seq<bool>)
    ensures |bs| == 8 * |s|
  {
    if s == [] then [] else BitsOf(s[..|s|-1]) + BitsOfWord(s[|s|-1] as bv16, 8)
  }

  // ---------------------------------------------------------------- the update is eight shifts

  function Shift2(c: bv16): bv16 { (c >> 2) ^ ((c & 3) << 14) ^ ((c & 3) << 9) ^ ((c & 3) << 2) }

  function Shift4(c: bv16): bv16 { (c >> 4) ^ ((c & 0xf) << 12) ^ ((c & 0xf) << 7) ^ (c & 0xf) }

  function Spread(x: bv16): bv16 { (x & 0xff) ^ ((x & 0xf) << 4) }

  function Mix(high: bv16, e: bv16): bv16 { high ^ (e << 8) ^ (e << 3) ^ (e >> 4) }

  lemma ShiftTwice0(c: bv16)
    requires c & 3 == 0
    ensures ShiftBit(ShiftBit(c)) == Shift2(c)
  {
  }

  lemma ShiftTwice1(c: bv16)
    requires c & 3 == 1
    ensures ShiftBit(ShiftBit(c)) == Shift2(c)
  {
  }

  lemma ShiftTwice2(c: bv16)
    requires c & 3 == 2
    ensures ShiftBit(ShiftBit(c)) == Shift2(c)
  {
  }

  lemma ShiftTwice3(c: bv16)
    requires c & 3 == 3
    ensures ShiftBit(ShiftBit(c)) == Shift2(c)
  {
  }

  lemma LowTwoBits(c: bv16)
    ensures c & 3 == 0 || c & 3 == 1 || c & 3 == 2 || c & 3 == 3
  {
  }

  /** By the two bits shifted out. */
  lemma ShiftTwice(c: bv16)
    ensures ShiftBit(ShiftBit(c)) == Shift2(c)
  {
    LowTwoBits(c);
    hide ShiftBit, Shift2;
    if c & 3 == 0 { ShiftTwice0(c); }
    else if c & 3 == 1 { ShiftTwice1(c); }
    else if c & 3 == 2 { ShiftTwice2(c); }
    else { ShiftTwice3(c); }
  }

  lemma ShiftFour(c: bv16)
    ensures Shift2(Shift2(c)) == Shift4(c)
  {
  }

  lemma Shift4Low(x: bv16)
    ensures Shift4(x) & 15 == ((x >> 4) & 15) ^ (x & 15)
  {
  }

  lemma Shift4High(x: bv16)
    ensures Shift4(x) >> 4 == (x >> 8) ^ ((x & 15) << 8) ^ ((x & 15) << 3)
  {
  }

  lemma SpreadNibbles(x: bv16)
    ensures Spread(x) == (x & 15) ^ ((((x >> 4) & 15) ^ (x & 15)) << 4)
  {
  }

  lemma MixNibbles(n: bv16, m: bv16, h: bv16)
    requires n < 16 && m < 16
    ensures (h ^ (n << 8) ^ (n << 3)) ^ (m << 12) ^ (m << 7) ^ m == Mix(h, n ^ (m << 4))
  {
  }

  lemma Shift8(x: bv16)
    ensures Shift4(Shift4(x)) == Mix(x >> 8, Spread(x))
  {
    Shift4Low(x);
    Shift4High(x);
    SpreadNibbles(x);
    var n, m, h := x & 15, Shift4(x) & 15, x >> 8;
    assert m < 16;
    MixNibbles(n, m, h);
  }

  lemma FeedbackIsSpread(c: bv16, a: bv8)
    ensures (Feedback(c, a) as bv16) == Spread(Xor(c, a as bv16))
  {
  }

  lemma CombineIsMix(h: bv16, e: bv8)
    requires h < 256
    ensures Combine(e, h) == Mix(h, e as bv16)
  {
  }

  lemma HighByteKept(c: bv16, a: bv8)
    ensures Xor(c, a as bv16) >> 8 == c >> 8 < 256
  {
  }

  lemma UpdateIsShift4s(c: bv16, a: bv8)
    ensures Update(c, a) == Shift4(Shift4(Xor(c, a as bv16)))
  {
    HighByteKept(c, a);
    FeedbackIsSpread(c, a);
    CombineIsMix(c >> 8, Feedback(c, a));
    Shift8(Xor(c, a as bv16));
  }

  lemma FourShifts(c: bv16, n: nat)
    requires n >= 4
    ensures Shift(c, n) == Shift(Shift4(c), n - 4)
  {
    var c1 := ShiftBit(c);
    var c2 := ShiftBit(c1);
    var c3 := ShiftBit(c2);
    assert Shift(c2, n - 2) == Shift(c3, n - 3);
    ShiftTwice(c);
    ShiftTwice(c2);
    ShiftFour(c);
  }

  /** The closed form of the source is eight shifts of the register. */
  lemma UpdateIsShift(c: bv16, a: bv8)
    ensures Update(c, a) == Shift(Xor(c, a as bv16), 8)
  {
    var x := Xor(c, a as bv16);
    UpdateIsShift4s(c, a);
    FourShifts(x, 8);
    FourShifts(Shift4(x), 4);
  }

  // ---------------------------------------------------------------- feeding bits

  function Drop(w: bv16, n: nat): bv16
    decreases n
  {
    if n == 0 then w else Drop(Half(w), n - 1)
  }

  lemma HalfXor(a: bv16, b: bv16)
    ensures Half(Xor(a, b)) == Xor(Half(a), Half(b))
    ensures Odd(Xor(a, b)) == Odd(Xor(a, Bit(Odd(b))))
  {
  }

  lemma HalfXorBit(a: bv16, b: bool)
    ensures Half(Xor(a, Bit(b))) == Half(a)
  {
  }

  lemma XorSwap(a: bv16, b: bv16)
    ensures Xor(Xor(a, b), 0x8408) == Xor(Xor(a, 0x8408), b)
  {
  }

  lemma Peel(c: bv16, w: bv16)
    ensures ShiftBit(Xor(c, w)) == Xor(ShiftBit(Xor(c, Bit(Odd(w)))), Half(w))
  {
    HalfXor(c, w);
    HalfXorBit(c, Odd(w));
    XorSwap(Half(c), Half(w));
  }

  /** Feeding the bits of a word is xoring it into the register and shifting. */
  lemma {:induction false} Feed(c: bv16, w: bv16, n: nat)
    ensures Shift(Xor(c, w), n) == Xor(OverBits(c, BitsOfWord(w, n)), Drop(w, n))
    decreases n
  {
    if n > 0 {
      Peel(c, w);
      assert BitsOfWord(w, n)[1..] == BitsOfWord(Half(w), n - 1);
      Feed(ShiftBit(Xor(c, Bit(Odd(w)))), Half(w), n - 1);
    }
  }

  lemma Drop4(w: bv16, n: nat)
    requires n >= 4
    ensures Drop(w, n) == Drop(w >> 4, n - 4)
  {
    assert Drop(Half(w), n - 1) == Drop(Half(Half(w)), n - 2);
    assert Drop(Half(Half(w)), n - 2) == Drop(Half(Half(Half(w))), n - 3);
    assert Half(Half(Half(Half(w)))) == w >> 4;
  }

  lemma DropAll(w: bv16)
    ensures Drop(w, 16) == 0
    ensures w < 256 ==> Drop(w, 8) == 0
  {
    Drop4(w, 16);
    Drop4(w >> 4, 12);
    Drop4((w >> 4) >> 4, 8);
    Drop4(((w >> 4) >> 4) >> 4, 4);
    Drop4(w, 8);
    Drop4(w >> 4, 4);
  }

  lemma FeedWord(c: bv16, w: bv16)
    ensures OverBits(c, BitsOfWord(w, 16)) == Shift(Xor(c, w), 16)
    ensures w < 256 ==> OverBits(c, BitsOfWord(w, 8)) == Shift(Xor(c, w), 8)
  {
    Feed(c, w, 16);
    Feed(c, w, 8);
    DropAll(w);
    XorZero(OverBits(c, BitsOfWord(w, 16)));
    XorZero(OverBits(c, BitsOfWord(w, 8)));
  }

  lemma XorZero(c: bv16)
    ensures Xor(c, 0) == c
  {
  }

  lemma {:induction false} OverBitsConcat(c: bv16, s: seq<bool>, t: seq<bool>)
    ensures OverBits(c, s + t) == OverBits(OverBits(c, s), t)
    decreases s
  {
    if s == [] {
      assert s + t == t;
    } else {
      assert (s + t)[1..] == s[1..] + t;
      OverBitsConcat(ShiftBit(Xor(c, Bit(s[0]))), s[1..], t);
    }
  }

  /** The byte-wise CRC of the source is the bit-serial register run over the message bits. */
  lemma {:induction false} OverIsOverBits(c: bv16, s: seq<bv8>)
    ensures Over(c, s) == OverBits(c, BitsOf(s))
  {
    if s != [] {
      var t, a := s[..|s|-1], s[|s|-1];
      OverIsOverBits(c, t);
      UpdateIsShift(Over(c, t), a);
      FeedWord(Over(c, t), a as bv16);
      OverBitsConcat(c, BitsOf(t), BitsOfWord(a as bv16, 8));
    }
  }

  // ---------------------------------------------------------------- the good residue

  lemma ShiftBitInjective(c: bv16, d: bv16)
    requires ShiftBit(c) == ShiftBit(d)
    ensures c == d
  {
  }

  lemma {:induction false} ShiftInjective(c: bv16, d: bv16, n: nat)
    requires Shift(c, n) == Shift(d, n)
    ensures c == d
    decreases n
  {
    if n > 0 {
      ShiftInjective(ShiftBit(c), ShiftBit(d), n - 1);
      ShiftBitInjective(c, d);
    }
  }

  function Unfold5(e: bv8): bv8 { e ^ (e >> 5) }

  lemma HighOfCombine(e: bv8, h: bv16)
    requires h < 256
    ensures Hi8(Combine(e, h)) == Unfold5(e)
  {
  }

  lemma Unfold5Injective(e: bv8)
    ensures Unfold5(Unfold5(e)) == e
  {
  }

  lemma FeedbackInjective(c: bv16, a: bv8, a': bv8)
    requires Feedback(c, a) == Feedback(c, a')
    ensures a == a'
  {
  }

  lemma XorByte(r: bv16, s: bv16, b: bv8, b': bv8)
    requires Xor(r, b as bv16) == Xor(s, b' as bv16)
    ensures Hi8(r) == Hi8(s) && (r == s ==> b == b')
  {
  }

  /** Two bytes lead a register to the good residue exactly when they are its complement, low byte first. */
  predicate Closes(c: bv16, a: bv8, b: bv8) { a == Lo8(Complement(c)) && b == Hi8(Complement(c)) }

  lemma ClosingIsGood(c: bv16)
    ensures Update(Update(c, Lo8(Complement(c))), Hi8(Complement(c))) == GOOD
  {
  }

  lemma TwoBytesDetermined(c: bv16, a: bv8, b: bv8, a': bv8, b': bv8)
    requires Update(Update(c, a), b) == Update(Update(c, a'), b')
    ensures a == a' && b == b'
  {
    var r, s := Update(c, a), Update(c, a');
    UpdateIsShift(r, b);
    UpdateIsShift(s, b');
    ShiftInjective(Xor(r, b as bv16), Xor(s, b' as bv16), 8);
    XorByte(r, s, b, b');
    HighByteKept(c, a);
    HighOfCombine(Feedback(c, a), c >> 8);
    HighOfCombine(Feedback(c, a'), c >> 8);
    Unfold5Injective(Feedback(c, a));
    Unfold5Injective(Feedback(c, a'));
    FeedbackInjective(c, a, a');
  }

  lemma TwoBytesToGood(c: bv16, a: bv8, b: bv8)
    ensures Update(Update(c, a), b) == GOOD <==> Closes(c, a, b)
  {
    ClosingIsGood(c);
    if Update(Update(c, a), b) == GOOD {
      TwoBytesDetermined(c, a, b, Lo8(Complement(c)), Hi8(Complement(c)));
    }
  }

  lemma OneByteNotGood(a: bv8)
    ensures Update(INITIAL, a) != GOOD
  {
  }

  lemma TwoBytesSplit(c: bv16, s: seq<bv8>)
    requires |s| >= 2
    ensures Over(c, s) == Update(Update(Over(c, s[..|s|-2]), s[|s|-2]), s[|s|-1])
  {
    var t := s[..|s|-1];
    assert t[..|t|-1] == s[..|s|-2];
  }

  /** A string passes the receivers' check exactly when it ends in the complemented CRC of the rest. */
  lemma ResidueIff(s: seq<bv8>)
    ensures Over(INITIAL, s) == GOOD
       <==> |s| >= 2 && Closes(Over(INITIAL, s[..|s|-2]), s[|s|-2], s[|s|-1])
  {
    if |s| == 1 {
      assert s[..0] == [];
      OneByteNotGood(s[0]);
    } else if |s| >= 2 {
      TwoBytesSplit(INITIAL, s);
      TwoBytesToGood(Over(INITIAL, s[..|s|-2]), s[|s|-2], s[|s|-1]);
    }
  }

  /** The catalogued check value of this code: the complemented CRC of the digits 1 to 9 is 0x906e. */
  lemma CheckValue()
    ensures Complement(Over(0xffff, [0x31, 0x32, 0x33, 0x34, 0x35, 0x36, 0x37, 0x38, 0x39])) == 0x906e
  {
    Digits();
    hide Update;
    var two: seq<bv8>, four: seq<bv8> := [0x31, 0x32], [0x31, 0x32, 0x33, 0x34];
    var six: seq<bv8> := [0x31, 0x32, 0x33, 0x34, 0x35, 0x36];
    OverTwo(0xffff, 0x31, 0x32);
    OverTwoMore(0xffff, two, 0x33, 0x34);
    OverTwoMore(0xffff, four, 0x35, 0x36);
    OverTwoMore(0xffff, six, 0x37, 0x38);
    assert two + [0x33, 0x34] == four && four + [0x35, 0x36] == six;
    var all: seq<bv8> := [0x31, 0x32, 0x33, 0x34, 0x35, 0x36, 0x37, 0x38, 0x39];
    assert all[..8] == six + [0x37, 0x38];
  }

  lemma OverTwoMore(c: bv16, s: seq<bv8>, a: bv8, b: bv8)
    ensures Over(c, s + [a, b]) == Update(Update(Over(c, s), a), b)
  {
    hide Update;
    OverConcat(c, s, [a, b]);
    OverTwo(Over(c, s), a, b);
  }

  lemma OverTwo(c: bv16, a: bv8, b: bv8)
    ensures Over(c, [a, b]) == Update(Update(c, a), b)
  {
    hide Update;
    assert [a, b][..1] == [a];
    assert [a][..0] == [];
    assert Over(c, [a]) == Update(Over(c, []), a);
  }

  lemma Digits()
    ensures Update(0xffff, 0x31) == 0x2f8d && Update(0x2f8d, 0x32) == 0x4d53 && Update(0x4d53, 0x33) == 0x634b
    ensures Update(0x634b, 0x34) == 0x8b13 && Update(0x8b13, 0x35) == 0x44bf && Update(0x44bf, 0x36) == 0x198d
    ensures Update(0x198d, 0x37) == 0x1ac8 && Update(0x1ac8, 0x38) == 0xf795 && Update(0xf795, 0x39) == 0x6f91
  {
  }

  // ---------------------------------------------------------------- error detection

  lemma XorInjective(c: bv16, d: bv16, x: bv16)
    requires Xor(c, x) == Xor(d, x)
    ensures c == d
  {
  }

  lemma XorCommutes(c: bv16, d: bv16)
    ensures Xor(c, d) == Xor(d, c)
  {
  }

  lemma {:induction false} OverBitsInjective(c: bv16, d: bv16, bs: seq<bool>)
    requires OverBits(c, bs) == OverBits(d, bs)
    ensures c == d
    decreases bs
  {
    if bs != [] {
      var x := Bit(bs[0]);
      OverBitsInjective(ShiftBit(Xor(c, x)), ShiftBit(Xor(d, x)), bs[1..]);
      ShiftBitInjective(Xor(c, x), Xor(d, x));
      XorInjective(c, d, x);
    }
  }

  /** Strings whose bits differ only inside 16 consecutive positions, at any bit offset, have different CRCs. */
  lemma BurstDetected(c: bv16, s: seq<bv8>, t: seq<bv8>, pre: seq<bool>, v: bv16, w: bv16, post: seq<bool>)
    requires BitsOf(s) == pre + BitsOfWord(v, 16) + post
    requires BitsOf(t) == pre + BitsOfWord(w, 16) + post
    requires v != w
    ensures Over(c, s) != Over(c, t)
  {
    OverIsOverBits(c, s);
    OverIsOverBits(c, t);
    var d := OverBits(c, pre);
    OverBitsConcat(c, pre + BitsOfWord(v, 16), post);
    OverBitsConcat(c, pre + BitsOfWord(w, 16), post);
    OverBitsConcat(c, pre, BitsOfWord(v, 16));
    OverBitsConcat(c, pre, BitsOfWord(w, 16));
    if Over(c, s) == Over(c, t) {
      OverBitsInjective(OverBits(d, BitsOfWord(v, 16)), OverBits(d, BitsOfWord(w, 16)), post);
      FeedWord(d, v);
      FeedWord(d, w);
      ShiftInjective(Xor(d, v), Xor(d, w), 16);
      XorCommutes(d, v);
      XorCommutes(d, w);
      XorInjective(v, w, d);
    }
  }

  lemma UpdateInjective(c: bv16, d: bv16, b: bv8)
    requires Update(c, b) == Update(d, b)
    ensures c == d
  {
    UpdateIsShift(c, b);
    UpdateIsShift(d, b);
    ShiftInjective(Xor(c, b as bv16), Xor(d, b as bv16), 8);
    XorInjective(c, d, b as bv16);
  }

  lemma {:induction false} OverInjective(c: bv16, d: bv16, s: seq<bv8>)
    requires Over(c, s) == Over(d, s)
    ensures c == d
  {
    hide Update;
    if s != [] {
      var t := s[..|s| - 1];
      UpdateInjective(Over(c, t), Over(d, t), s[|s| - 1]);
      OverInjective(c, d, t);
    }
  }

  /** Strings that differ only within two adjacent bytes have different CRCs. */
  lemma AdjacentBytesDetected(c: bv16, p: seq<bv8>, a: bv8, b: bv8, a': bv8, b': bv8, q: seq<bv8>)
    requires a != a' || b != b'
    ensures Over(c, p + [a, b] + q) != Over(c, p + [a', b'] + q)
  {
    hide Update;
    var d := Over(c, p);
    OverConcat(c, p + [a, b], q);
    OverConcat(c, p + [a', b'], q);
    OverConcat(c, p, [a, b]);
    OverConcat(c, p, [a', b']);
    TwoBytesSplit(d, [a, b]);
    TwoBytesSplit(d, [a', b']);
    assert Over(d, [a, b][..0]) == d && Over(d, [a', b'][..0]) == d;
    if Over(c, p + [a, b] + q) == Over(c, p + [a', b'] + q) {
      OverInjective(Over(d, [a, b]), Over(d, [a', b']), q);
      TwoBytesDetermined(d, a, b, a', b');
    }
  }

  /** Whether the lowest `n` bits of a word hold an odd number of ones. */
  predicate Parity(x: bv16, n: nat)
    decreases n
  {
    n > 0 && Odd(x) != Parity(Half(x), n - 1)
  }

  lemma OddXor(a: bv16, b: bv16)
    ensures Odd(Xor(a, b)) == (Odd(a) != Odd(b))
  {
  }

  lemma {:induction false} ParityXor(a: bv16, b: bv16, n: nat)
    ensures Parity(Xor(a, b), n) == (Parity(a, n) != Parity(b, n))
    decreases n
  {
    hide Xor, Half, Odd;
    if n > 0 {
      OddXor(a, b);
      HalfXor(a, b);
      ParityXor(Half(a), Half(b), n - 1);
    }
  }

  lemma {:induction false} ParityExtend(x: bv16, n: nat)
    ensures Parity(x, n + 1) == (Parity(x, n) != Odd(Drop(x, n)))
    decreases n
  {
    if n > 0 { ParityExtend(Half(x), n - 1); }
  }

  lemma Parity4(x: bv16, n: nat)
    requires n >= 4
    ensures Parity(x, n) == (Odd(x) != (Odd(x >> 1) != (Odd(x >> 2) != (Odd(x >> 3) != Parity(x >> 4, n - 4)))))
  {
    assert Half(x >> 1) == x >> 2 && Half(x >> 2) == x >> 3 && Half(x >> 3) == x >> 4;
    assert Parity(x >> 1, n - 1) == (Odd(x >> 1) != Parity(x >> 2, n - 2));
    assert Parity(x >> 2, n - 2) == (Odd(x >> 2) != Parity(x >> 3, n - 3));
  }

  lemma ParityOfTaps()
    ensures Parity(0x8408, 16) && Parity(1, 16) && !Parity(0, 16)
  {
    Parity4(0, 16);
    Parity4(0, 12);
    Parity4(0, 8);
    Parity4(0, 4);
    Parity4(1, 16);
    Parity4(0x8408, 16);
    Parity4(0x840, 12);
    Parity4(0x84, 8);
    Parity4(0x8, 4);
  }

  lemma ParityOfBit(b: bool)
    ensures Parity(Bit(b), 16) == b
  {
    ParityOfTaps();
  }

  /** The generator polynomial has an even number of terms, so a shift keeps the parity of the register. */
  lemma ShiftKeepsParity(x: bv16)
    ensures Parity(ShiftBit(x), 16) == Parity(x, 16)
  {
    ParityOfTaps();
    ParityXor(Half(x), 0x8408, 16);
    ParityExtend(x, 16);
    DropAll(x);
    assert Parity(x, 17) == (Odd(x) != Parity(Half(x), 16));
  }

  predicate OddOnes(bs: seq<bool>) {
    bs != [] && bs[0] != OddOnes(bs[1..])
  }

  lemma {:induction false} OverBitsParity(c: bv16, bs: seq<bool>)
    ensures Parity(OverBits(c, bs), 16) == (Parity(c, 16) != OddOnes(bs))
    decreases bs
  {
    hide Xor, Odd, Half, ShiftBit, Parity, Bit;
    if bs != [] {
      ParityXor(c, Bit(bs[0]), 16);
      ParityOfBit(bs[0]);
      ShiftKeepsParity(Xor(c, Bit(bs[0])));
      OverBitsParity(ShiftBit(Xor(c, Bit(bs[0]))), bs[1..]);
    }
  }

  /** The number of positions at which two bit strings of equal length differ. */
  function Differences(s: seq<bool>, t: seq<bool>): nat
    requires |s| == |t|
  {
    if s == [] then 0 else (if s[0] != t[0] then 1 else 0) + Differences(s[1..], t[1..])
  }

  lemma {:induction false} DifferencesParity(s: seq<bool>, t: seq<bool>)
    requires |s| == |t|
    ensures Differences(s, t) % 2 == 1 <==> OddOnes(s) != OddOnes(t)
  {
    if s != [] { DifferencesParity(s[1..], t[1..]); }
  }

  /** Any odd number of flipped bits, wherever they are, changes the CRC. */
  lemma OddErrorsDetected(c: bv16, s: seq<bv8>, t: seq<bv8>)
    requires |s| == |t| && Differences(BitsOf(s), BitsOf(t)) % 2 == 1
    ensures Over(c, s) != Over(c, t)
  {
    OverIsOverBits(c, s);
    OverIsOverBits(c, t);
    var bs, bt := BitsOf(s), BitsOf(t);
    OverBitsParity(c, bs);
    OverBitsParity(c, bt);
    DifferencesParity(bs, bt);
  }
}
