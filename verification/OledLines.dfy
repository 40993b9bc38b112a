/** The byte-masked lines of the SSD1306 driver, in its own 16-bit arithmetic, against pixel-by-pixel drawing. */
module OledLines {
  import opened OledPixels
  import opened Words

  // ---------------------------------------------------------------- clipping

  /** What the clipping of both internal functions leaves of `len` pixels from `start` on `limit` pixels. */
  function Span(start: Int16, len: Int16, limit: nat): (r: (nat, nat))
    ensures r.0 <= r.1 && (r.0 < r.1 ==> r.1 <= limit)
  {
    var rest := if start < 0 then Wrap(len + start) else len;
    var from := if start < 0 then 0 else start;
    var shown := if from + rest > limit then limit - from else rest;
    if shown <= 0 then (from, from) else (from, from + shown)
  }

  predicate Covers(start: Int16, len: Int16, limit: nat, c: nat) {
    Span(start, len, limit).0 <= c < Span(start, len, limit).1
  }

  /** A start off the screen whose sum with the length leaves the 16-bit range. */
  predicate Stray(start: Int16, len: Int16) { start < 0 && -65536 < start + len < -32768 }

  lemma CoversRight(start: Int16, len: Int16, limit: nat, c: nat)
    requires c < limit <= 255 && !Stray(start, len)
    ensures Covers(start, len, limit, c) <==> start <= c < start + len
  {
  }

  /** The clipping is right exactly when that sum does not wrap. */
  lemma SpanIff(start: Int16, len: Int16, limit: nat)
    requires 0 < limit <= 255
    ensures
      (forall c: nat :: c < limit ==> (Covers(start, len, limit, c) <==> start <= c < start + len))
      <==> !Stray(start, len)
  {
    if Stray(start, len) {
      assert Covers(start, len, limit, 0);
    } else {
      forall c: nat | c < limit
        ensures Covers(start, len, limit, c) <==> start <= c < start + len
      {
        CoversRight(start, len, limit, c);
      }
    }
  }

  /** The same for a line drawn backwards from its last pixel, through two wrapping subtractions. */
  lemma CoversBackward(x: Int16, len: Int16, limit: nat, c: nat)
    requires c < limit <= 255 && !Stray(Wrap(Wrap(limit - x - 1) - (len - 1)), len)
    ensures Covers(Wrap(Wrap(limit - x - 1) - (len - 1)), len, limit, c) <==> limit - x - len <= c < limit - x
  {
    hide Covers;
    CoversRight(Wrap(Wrap(limit - x - 1) - (len - 1)), len, limit, c);
  }

  lemma MirrorRight(x: Int16, limit: nat, c: nat)
    requires c < limit <= 255
    ensures Wrap(limit - x - 1) == c <==> x == limit - 1 - c
  {
  }

  // ---------------------------------------------------------------- rotation

  /** Where the driver starts the line on the panel. */
  function Origin(size: Size, rot: Rotation, x: Int16, y: Int16, across: bool, n: Int16): (Int16, Int16) {
    match rot
    case 0 => (x, y)
    case 1 => (if across then Wrap(size.w - y - 1) else Wrap(Wrap(size.w - y - 1) - (n - 1)), x)
    case 2 =>
      if across then (Wrap(Wrap(size.w - x - 1) - (n - 1)), Wrap(size.h - y - 1))
      else (Wrap(size.w - x - 1), Wrap(Wrap(size.h - y - 1) - (n - 1)))
    case _ => (y, if across then Wrap(Wrap(size.h - x - 1) - (n - 1)) else Wrap(size.h - x - 1))
  }

  /** Whether the line runs along the rows of the panel. */
  predicate Along(rot: Rotation, across: bool) { across == (rot % 2 == 0) }

  /** The part of the panel painted for a line. */
  function Painted(size: Size, rot: Rotation, x: Int16, y: Int16, across: bool, n: Int16): Rect {
    var (ox, oy) := Origin(size, rot, x, y, across, n);
    if Along(rot, across) then
      var (lo, hi) := Span(ox, n, size.w);
      Rect(lo, hi, oy, oy + 1)
    else
      var (lo, hi) := Span(oy, n, size.h);
      Rect(ox, ox + 1, lo, hi)
  }

  /** The 16-bit sum wraps, and the row or column the line is on is one of the panel's. */
  predicate Misdraws(size: Size, rot: Rotation, x: Int16, y: Int16, across: bool, n: Int16) {
    var (ox, oy) := Origin(size, rot, x, y, across, n);
    if Along(rot, across) then Stray(ox, n) && 0 <= oy < size.h else Stray(oy, n) && 0 <= ox < size.w
  }

  lemma UprightLine(size: Size, x: Int16, y: Int16, across: bool, n: Int16, c: nat, r: nat)
    requires size.Ok() && !Misdraws(size, 0, x, y, across, n) && c < size.w && r < size.h
    ensures Painted(size, 0, x, y, across, n).Has(c, r) == LineRect(size, 0, x, y, across, n).Has(c, r)
  {
    hide Wrap, Span;
    var (ox, oy) := Origin(size, 0, x, y, across, n);
    if across {
      assert Painted(size, 0, x, y, across, n).Has(c, r) == (Covers(ox, n, size.w, c) && oy == r);
      if oy == r { CoversRight(x, n, size.w, c); }
    } else {
      assert Painted(size, 0, x, y, across, n).Has(c, r) == (ox == c && Covers(oy, n, size.h, r));
      if ox == c { CoversRight(y, n, size.h, r); }
    }
  }

  lemma QuarterLine(size: Size, x: Int16, y: Int16, across: bool, n: Int16, c: nat, r: nat)
    requires size.Ok() && !Misdraws(size, 1, x, y, across, n) && c < size.w && r < size.h
    ensures Painted(size, 1, x, y, across, n).Has(c, r) == LineRect(size, 1, x, y, across, n).Has(c, r)
  {
    hide Wrap, Span;
    var (ox, oy) := Origin(size, 1, x, y, across, n);
    if across {
      assert Painted(size, 1, x, y, across, n).Has(c, r) == (ox == c && Covers(oy, n, size.h, r));
      MirrorRight(y, size.w, c);
      if ox == c { CoversRight(x, n, size.h, r); }
    } else {
      assert Painted(size, 1, x, y, across, n).Has(c, r) == (Covers(ox, n, size.w, c) && oy == r);
      if oy == r { CoversBackward(y, n, size.w, c); }
    }
  }

  lemma HalfLine(size: Size, x: Int16, y: Int16, across: bool, n: Int16, c: nat, r: nat)
    requires size.Ok() && !Misdraws(size, 2, x, y, across, n) && c < size.w && r < size.h
    ensures Painted(size, 2, x, y, across, n).Has(c, r) == LineRect(size, 2, x, y, across, n).Has(c, r)
  {
    hide Wrap, Span;
    var (ox, oy) := Origin(size, 2, x, y, across, n);
    if across {
      assert Painted(size, 2, x, y, across, n).Has(c, r) == (Covers(ox, n, size.w, c) && oy == r);
      MirrorRight(y, size.h, r);
      if oy == r { CoversBackward(x, n, size.w, c); }
    } else {
      assert Painted(size, 2, x, y, across, n).Has(c, r) == (ox == c && Covers(oy, n, size.h, r));
      MirrorRight(x, size.w, c);
      if ox == c { CoversBackward(y, n, size.h, r); }
    }
  }

  lemma ThreeQuarterLine(size: Size, x: Int16, y: Int16, across: bool, n: Int16, c: nat, r: nat)
    requires size.Ok() && !Misdraws(size, 3, x, y, across, n) && c < size.w && r < size.h
    ensures Painted(size, 3, x, y, across, n).Has(c, r) == LineRect(size, 3, x, y, across, n).Has(c, r)
  {
    hide Wrap, Span;
    var (ox, oy) := Origin(size, 3, x, y, across, n);
    if across {
      assert Painted(size, 3, x, y, across, n).Has(c, r) == (ox == c && Covers(oy, n, size.h, r));
      if ox == c { CoversBackward(x, n, size.h, r); }
    } else {
      assert Painted(size, 3, x, y, across, n).Has(c, r) == (Covers(ox, n, size.w, c) && oy == r);
      MirrorRight(x, size.h, r);
      if oy == r { CoversRight(y, n, size.w, c); }
    }
  }

  /** For every rotation, the driver's start and clipping cover just the pixels of the line. */
  lemma PaintedIsLine(size: Size, rot: Rotation, x: Int16, y: Int16, across: bool, n: Int16, c: nat, r: nat)
    requires size.Ok() && !Misdraws(size, rot, x, y, across, n) && c < size.w && r < size.h
    ensures Painted(size, rot, x, y, across, n).Has(c, r) == LineRect(size, rot, x, y, across, n).Has(c, r)
  {
    hide Painted, LineRect, Misdraws;
    match rot
    case 0 => UprightLine(size, x, y, across, n, c, r);
    case 1 => QuarterLine(size, x, y, across, n, c, r);
    case 2 => HalfLine(size, x, y, across, n, c, r);
    case _ => ThreeQuarterLine(size, x, y, across, n, c, r);
  }

  /** Only negative lengths are misdrawn. */
  lemma NonNegativeIsRight(size: Size, rot: Rotation, x: Int16, y: Int16, across: bool, n: Int16)
    requires n >= 0
    ensures !Misdraws(size, rot, x, y, across, n)
  {
  }

  /** A length of -32768 one pixel left of the screen paints a whole row. */
  lemma MisdrawnRow()
    ensures Misdraws(Size(128, 64), 0, -1, 0, true, -32768)
    ensures Painted(Size(128, 64), 0, -1, 0, true, -32768) == Rect(0, 128, 0, 1)
  {
  }

  // ---------------------------------------------------------------- masks of the vertical line

  function Premask(mod: nat): bv8
    requires mod < 8
  {
    match mod
    case 0 => 0x00 case 1 => 0x80 case 2 => 0xC0 case 3 => 0xE0
    case 4 => 0xF0 case 5 => 0xF8 case 6 => 0xFC case _ => 0xFE
  }

  function Postmask(mod: nat): bv8
    requires mod < 8
  {
    match mod
    case 0 => 0x00 case 1 => 0x01 case 2 => 0x03 case 3 => 0x07
    case 4 => 0x0F case 5 => 0x1F case 6 => 0x3F case _ => 0x7F
  }

  lemma PremaskBits(mod: nat, j: nat)
    requires mod < 8 && j < 8
    ensures Bit(Premask(mod), j) == (8 - mod <= j)
  {
    match mod
    case 0 => case 1 => case 2 => case 3 => case 4 => case 5 => case 6 => case _ =>
  }

  lemma PostmaskBits(mod: nat, j: nat)
    requires mod < 8 && j < 8
    ensures Bit(Postmask(mod), j) == (j < mod)
  {
    match mod
    case 0 => case 1 => case 2 => case 3 => case 4 => case 5 => case 6 => case _ =>
  }

  lemma ShiftedBits(k: nat, j: nat)
    requires k < 8 && j < 8
    ensures Bit((0xFF as bv8) >> k, j) == (j < 8 - k)
  {
    match k
    case 0 => assert (0xFF as bv8) >> 0 == 0xFF;
    case 1 => assert (0xFF as bv8) >> 1 == 0x7F;
    case 2 => assert (0xFF as bv8) >> 2 == 0x3F;
    case 3 => assert (0xFF as bv8) >> 3 == 0x1F;
    case 4 => assert (0xFF as bv8) >> 4 == 0x0F;
    case 5 => assert (0xFF as bv8) >> 5 == 0x07;
    case 6 => assert (0xFF as bv8) >> 6 == 0x03;
    case _ => assert (0xFF as bv8) >> 7 == 0x01;
  }

  lemma AndBits(a: bv8, b: bv8, j: nat)
    requires j < 8
    ensures Bit(a & b, j) == (Bit(a, j) && Bit(b, j))
  {
    MaskOneBit(j);
    hide Mask;
    AndMeets(a, b, Mask(j));
  }

  lemma AndMeets(a: bv8, b: bv8, k: bv8)
    requires OneBit(k)
    ensures Meets(a & b, k) == (Meets(a, k) && Meets(b, k))
  {
  }

  /** The mask of the first, partial octet: from row `8 - mod` of the page on, at most `h` rows. */
  function HeadMask(mod: nat, h: nat): bv8
    requires mod < 8
  {
    if h < mod then Premask(mod) & ((0xFF as bv8) >> (mod - h)) else Premask(mod)
  }

  lemma HeadMaskBits(mod: nat, h: nat, j: nat)
    requires 0 < mod < 8 && j < 8
    ensures Bit(HeadMask(mod, h), j) == (8 - mod <= j < 8 - mod + h)
  {
    hide Bit, Premask;
    PremaskBits(mod, j);
    if h < mod {
      ShiftedBits(mod - h, j);
      AndBits(Premask(mod), (0xFF as bv8) >> (mod - h), j);
    }
  }
}
