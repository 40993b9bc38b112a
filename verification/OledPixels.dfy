/** The page-organised framebuffer of the SSD1306 and what drawing means pixel by pixel. */
module OledPixels {

  /** A panel of `w` columns and `h` rows; eight rows share a page of `w` octets. */
  datatype Size = Size(w: nat, h: nat)
  {
    predicate Ok() { 0 < w <= 255 && 0 < h <= 248 && h % 8 == 0 }

    function Octets(): nat { (h / 8) * w }
  }

  /** BLACK, WHITE, INVERSE, or any other colour number. */
  datatype Ink = Black | White | Inverse | Other

  // ---------------------------------------------------------------- octets

  function Mask(k: nat): bv8
    requires k < 8
  {
    match k
    case 0 => 0x01 case 1 => 0x02 case 2 => 0x04 case 3 => 0x08
    case 4 => 0x10 case 5 => 0x20 case 6 => 0x40 case _ => 0x80
  }

  predicate Bit(b: bv8, k: nat)
    requires k < 8
  {
    Meets(b, Mask(k))
  }

  predicate Meets(a: bv8, b: bv8) { a & b != 0 }

  function Set(b: bv8, mask: bv8): bv8 { b | mask }

  function Clear(b: bv8, mask: bv8): bv8 { b & !mask }

  function Flip(b: bv8, mask: bv8): bv8 { b ^ mask }

  /** A read-modify-write of one octet. */
  function PaintByte(ink: Ink, b: bv8, mask: bv8): bv8 {
    match ink
    case White => Set(b, mask)
    case Black => Clear(b, mask)
    case Inverse => Flip(b, mask)
    case Other => b
  }

  predicate PaintBit(ink: Ink, lit: bool) {
    match ink
    case White => true
    case Black => false
    case Inverse => !lit
    case Other => lit
  }

  predicate OneBit(k: bv8) {
    k == 0x01 || k == 0x02 || k == 0x04 || k == 0x08 || k == 0x10 || k == 0x20 || k == 0x40 || k == 0x80
  }

  lemma SetMeets(b: bv8, mask: bv8, k: bv8)
    ensures Meets(Set(b, mask), k) == (Meets(mask, k) || Meets(b, k))
  {
  }

  lemma ClearMeets(b: bv8, mask: bv8, k: bv8)
    requires OneBit(k)
    ensures Meets(Clear(b, mask), k) == (!Meets(mask, k) && Meets(b, k))
  {
  }

  lemma FlipMeets(b: bv8, mask: bv8, k: bv8)
    requires OneBit(k)
    ensures Meets(Flip(b, mask), k) == (Meets(mask, k) != Meets(b, k))
  {
  }

  lemma MaskOneBit(k: nat)
    requires k < 8
    ensures OneBit(Mask(k))
  {
  }

  lemma PaintMeets(ink: Ink, b: bv8, mask: bv8, k: bv8)
    requires OneBit(k)
    ensures Meets(PaintByte(ink, b, mask), k) == if Meets(mask, k) then PaintBit(ink, Meets(b, k)) else Meets(b, k)
  {
    hide Meets, OneBit, Set, Clear, Flip;
    match ink
    case White => SetMeets(b, mask, k);
    case Black => ClearMeets(b, mask, k);
    case Inverse => FlipMeets(b, mask, k);
    case Other =>
  }

  lemma PaintBits(ink: Ink, b: bv8, mask: bv8, j: nat)
    requires j < 8
    ensures Bit(PaintByte(ink, b, mask), j) == if Bit(mask, j) then PaintBit(ink, Bit(b, j)) else Bit(b, j)
  {
    MaskOneBit(j);
    hide Mask, Meets, OneBit, PaintByte, PaintBit;
    PaintMeets(ink, b, mask, Mask(j));
  }

  lemma MaskBits(k: nat, j: nat)
    requires k < 8 && j < 8
    ensures Bit(Mask(k), j) == (j == k)
  {
    match k
    case 0 => case 1 => case 2 => case 3 => case 4 => case 5 => case 6 => case _ =>
  }

  lemma SameBits(a: bv8, b: bv8)
    requires forall k :: 0 <= k < 8 ==> Bit(a, k) == Bit(b, k)
    ensures a == b
  {
    assert Bit(a, 0) == Bit(b, 0) && Bit(a, 1) == Bit(b, 1) && Bit(a, 2) == Bit(b, 2) && Bit(a, 3) == Bit(b, 3);
    assert Bit(a, 4) == Bit(b, 4) && Bit(a, 5) == Bit(b, 5) && Bit(a, 6) == Bit(b, 6) && Bit(a, 7) == Bit(b, 7);
  }

  // ---------------------------------------------------------------- pixels

  /** Where the octet of column `x` in page `p` is. */
  function At(size: Size, x: nat, p: nat): (i: nat)
    requires size.Ok() && x < size.w && p < size.h / 8
    ensures i < size.Octets()
  {
    PageApart(size.w, x, p, size.h / 8);
    x + p * size.w
  }

  lemma PageApart(w: nat, x: nat, p: nat, q: nat)
    requires x < w && p < q
    ensures x + p * w < q * w
  {
    MulMono(p + 1, q, w);
  }

  lemma AtInjective(size: Size, x: nat, p: nat, x': nat, p': nat)
    requires size.Ok() && x < size.w && p < size.h / 8 && x' < size.w && p' < size.h / 8
    ensures At(size, x, p) == At(size, x', p') <==> x == x' && p == p'
  {
    if p < p' { PageApart(size.w, x, p, p'); }
    if p' < p { PageApart(size.w, x', p', p); }
  }

  lemma AtSurjective(size: Size, i: nat) returns (x: nat, p: nat)
    requires size.Ok() && i < size.Octets()
    ensures x < size.w && p < size.h / 8 && At(size, x, p) == i
  {
    x, p := i % size.w, i / size.w;
    assert i == p * size.w + x;
    if size.h / 8 <= p { MulMono(size.h / 8, p, size.w); }
  }

  lemma MulMono(a: nat, b: nat, w: nat)
    requires a <= b
    ensures a * w <= b * w
  {
  }

  predicate Lit(size: Size, buf: seq<bv8>, x: nat, y: nat)
    requires size.Ok() && |buf| == size.Octets() && x < size.w && y < size.h
  {
    Bit(buf[At(size, x, y / 8)], y % 8)
  }

  /** Columns from `left` up to but not including `right`, rows from `top` up to but not including `bottom`. */
  datatype Rect = Rect(left: int, right: int, top: int, bottom: int)
  {
    predicate Has(x: int, y: int) { left <= x < right && top <= y < bottom }
  }

  /** `after` is `before` with exactly the on-screen pixels of `area` painted. */
  ghost predicate Drawn(size: Size, before: seq<bv8>, after: seq<bv8>, ink: Ink, area: Rect)
    requires size.Ok()
  {
    && |before| == |after| == size.Octets()
    && forall x: nat, y: nat :: x < size.w && y < size.h ==>
         Lit(size, after, x, y) ==
           if area.Has(x, y) then PaintBit(ink, Lit(size, before, x, y)) else Lit(size, before, x, y)
  }

  /** A drawing is determined by its start, its ink and the pixels it covers. */
  lemma DrawnOnce(size: Size, before: seq<bv8>, a: seq<bv8>, b: seq<bv8>, ink: Ink, r: Rect, r': Rect)
    requires size.Ok() && Drawn(size, before, a, ink, r) && Drawn(size, before, b, ink, r')
    requires forall x: nat, y: nat :: x < size.w && y < size.h ==> r.Has(x, y) == r'.Has(x, y)
    ensures a == b
  {
    hide Bit, At;
    forall i: nat | i < |a|
      ensures a[i] == b[i]
    {
      var x, p := AtSurjective(size, i);
      forall k: nat | k < 8
        ensures Bit(a[i], k) == Bit(b[i], k)
      {
        assert (8 * p + k) / 8 == p && (8 * p + k) % 8 == k;
        assert Lit(size, a, x, 8 * p + k) == Lit(size, b, x, 8 * p + k);
      }
      SameBits(a[i], b[i]);
    }
  }

  lemma DrawnNothing(size: Size, buf: seq<bv8>, ink: Ink, area: Rect)
    requires size.Ok() && |buf| == size.Octets()
    requires ink == Other || forall x: nat, y: nat :: x < size.w && y < size.h ==> !area.Has(x, y)
    ensures Drawn(size, buf, buf, ink, area)
  {
  }

  /** Two drawings without a pixel in common make one. */
  lemma DrawnBoth(size: Size, a: seq<bv8>, b: seq<bv8>, c: seq<bv8>, ink: Ink, r: Rect, r': Rect, all: Rect)
    requires size.Ok() && Drawn(size, a, b, ink, r) && Drawn(size, b, c, ink, r')
    requires forall x: nat, y: nat :: x < size.w && y < size.h ==>
      (all.Has(x, y) <==> r.Has(x, y) || r'.Has(x, y)) && !(r.Has(x, y) && r'.Has(x, y))
    ensures Drawn(size, a, c, ink, all)
  {
    hide Lit;
  }

  /** Painting one octet draws the pixels selected by the mask. */
  lemma OctetDrawn(size: Size, buf: seq<bv8>, ink: Ink, x: nat, p: nat, mask: bv8, lo: nat, hi: nat)
    requires size.Ok() && |buf| == size.Octets() && x < size.w && p < size.h / 8 && hi <= 8
    requires forall j: nat :: j < 8 ==> Bit(mask, j) == (lo <= j < hi)
    ensures
      var i := At(size, x, p);
      Drawn(size, buf, buf[i := PaintByte(ink, buf[i], mask)], ink, Rect(x, x + 1, 8 * p + lo, 8 * p + hi))
  {
    hide At, Bit, PaintByte, PaintBit;
    var i := At(size, x, p);
    var after := buf[i := PaintByte(ink, buf[i], mask)];
    forall x': nat, y: nat | x' < size.w && y < size.h
      ensures
        Lit(size, after, x', y) ==
          if Rect(x, x + 1, 8 * p + lo, 8 * p + hi).Has(x', y) then PaintBit(ink, Lit(size, buf, x', y))
          else Lit(size, buf, x', y)
    {
      AtInjective(size, x, p, x', y / 8);
      PaintBits(ink, buf[i], mask, y % 8);
    }
  }

  /** With INVERSE, drawing any pixel shows. */
  lemma InverseShows(size: Size, before: seq<bv8>, after: seq<bv8>, area: Rect, x: nat, y: nat)
    requires size.Ok() && Drawn(size, before, after, Inverse, area) && x < size.w && y < size.h && area.Has(x, y)
    ensures after != before
  {
    hide Lit;
    assert Lit(size, after, x, y) == !Lit(size, before, x, y);
  }

  // ---------------------------------------------------------------- the pixel function

  type Rotation = r: nat | r < 4

  predicate OnScreen(size: Size, rot: Rotation, x: int, y: int) {
    if rot % 2 == 0 then 0 <= x < size.w && 0 <= y < size.h else 0 <= x < size.h && 0 <= y < size.w
  }

  /** The column and row of the panel where the pixel of a rotated screen is. */
  function Place(size: Size, rot: Rotation, x: int, y: int): (int, int) {
    match rot
    case 0 => (x, y)
    case 1 => (size.w - y - 1, x)
    case 2 => (size.w - x - 1, size.h - y - 1)
    case _ => (y, size.h - x - 1)
  }

  function DrawPixel(size: Size, buf: seq<bv8>, rot: Rotation, x: int, y: int, ink: Ink): (r: seq<bv8>)
    requires size.Ok() && |buf| == size.Octets()
    ensures |r| == |buf|
  {
    if !OnScreen(size, rot, x, y) then buf else
    var (px, py) := Place(size, rot, x, y);
    var i := At(size, px, py / 8);
    buf[i := PaintByte(ink, buf[i], Mask(py % 8))]
  }

  const POWERS: seq<bv8> := [1, 2, 4, 8, 16, 32, 64, 128]

  /** The panel's column and row of a pixel, for a screen turned clockwise by quarters. */
  lemma PixelPlace(size: Size, rot: Rotation, x: int, y: int)
    requires size.Ok()
    ensures
      Place(size, rot, x, y) ==
        if rot == 0 then (x, y) else if rot == 1 then (size.w - 1 - y, x)
        else if rot == 2 then (size.w - 1 - x, size.h - 1 - y) else (y, size.h - 1 - x)
    ensures OnScreen(size, rot, x, y) <==>
      0 <= Place(size, rot, x, y).0 < size.w && 0 <= Place(size, rot, x, y).1 < size.h
  {
  }

  /** Which octet and bit a pixel is, and what a colour does to it: column by column in pages of eight rows, the least
      significant bit on top. */
  lemma PixelOctet(size: Size, buf: seq<bv8>, rot: Rotation, x: int, y: int, ink: Ink)
    requires size.Ok() && |buf| == size.Octets() && OnScreen(size, rot, x, y)
    ensures
      var (c, r) := Place(size, rot, x, y);
      var i := c + (r / 8) * size.w;
      && 0 <= i < |buf|
      && DrawPixel(size, buf, rot, x, y, ink) == buf[i := Inked(ink, buf[i], POWERS[r % 8])]
  {
    MaskPowers();
    hide Inked, PaintByte, Mask;
    PixelPlace(size, rot, x, y);
    var (c, r) := Place(size, rot, x, y);
    assert At(size, c, r / 8) == c + (r / 8) * size.w;
    InkedIs(ink, buf[c + (r / 8) * size.w], POWERS[r % 8]);
    hide At, Place, OnScreen;
  }

  function Inked(ink: Ink, b: bv8, bits: bv8): bv8 {
    match ink
    case White => b | bits
    case Black => b & !bits
    case Inverse => b ^ bits
    case Other => b
  }

  lemma InkedIs(ink: Ink, b: bv8, bits: bv8)
    ensures PaintByte(ink, b, bits) == Inked(ink, b, bits)
  {
  }

  lemma NoPixel(size: Size, buf: seq<bv8>, rot: Rotation, x: int, y: int, ink: Ink)
    requires size.Ok() && |buf| == size.Octets()
    requires
      var (w, h) := if rot % 2 == 0 then (size.w, size.h) else (size.h, size.w);
      !(0 <= x < w && 0 <= y < h)
    ensures DrawPixel(size, buf, rot, x, y, ink) == buf
  {
  }

  lemma MaskPowers()
    ensures forall k: nat :: k < 8 ==> Mask(k) == POWERS[k]
  {
  }

  /** A pixel is lit when its bit is set. */
  lemma LitIff(size: Size, buf: seq<bv8>, x: nat, y: nat)
    requires size.Ok() && |buf| == size.Octets() && x < size.w && y < size.h
    ensures 0 <= x + (y / 8) * size.w < |buf|
    ensures Lit(size, buf, x, y) <==> buf[x + (y / 8) * size.w] & POWERS[y % 8] != 0
  {
    MaskPowers();
    hide Mask;
    assert At(size, x, y / 8) == x + (y / 8) * size.w;
  }

  function Dot(x: int, y: int): Rect { Rect(x, x + 1, y, y + 1) }

  lemma PixelDrawn(size: Size, buf: seq<bv8>, rot: Rotation, x: int, y: int, ink: Ink)
    requires size.Ok() && |buf| == size.Octets()
    ensures
      var (px, py) := Place(size, rot, x, y);
      Drawn(size, buf, DrawPixel(size, buf, rot, x, y, ink), ink, Dot(px, py))
  {
    hide At, Mask, PaintByte, PaintBit, Drawn;
    var (px, py) := Place(size, rot, x, y);
    if OnScreen(size, rot, x, y) {
      forall j: nat | j < 8
        ensures Bit(Mask(py % 8), j) == (py % 8 <= j < py % 8 + 1)
      {
        MaskBits(py % 8, j);
      }
      OctetDrawn(size, buf, ink, px, py / 8, Mask(py % 8), py % 8, py % 8 + 1);
    } else {
      DrawnNothing(size, buf, ink, Dot(px, py));
    }
  }

  /** The pixels of a horizontal (`across`) or vertical line of `n` pixels, one by one. */
  function Pixels(size: Size, buf: seq<bv8>, rot: Rotation, x: int, y: int, across: bool, n: int, ink: Ink)
    : (r: seq<bv8>)
    requires size.Ok() && |buf| == size.Octets()
    ensures |r| == |buf|
    decreases n
  {
    if n <= 0 then buf else
    var before := Pixels(size, buf, rot, x, y, across, n - 1, ink);
    if across then DrawPixel(size, before, rot, x + n - 1, y, ink) else DrawPixel(size, before, rot, x, y + n - 1, ink)
  }

  /** The part of the panel, which may reach beyond it, that the line covers. */
  function LineRect(size: Size, rot: Rotation, x: int, y: int, across: bool, n: int): Rect {
    var (px, py) := Place(size, rot, x, y);
    var (qx, qy) := if across then Place(size, rot, x + n - 1, y) else Place(size, rot, x, y + n - 1);
    if n <= 0 then Rect(px, px, py, py)
    else Rect(if px < qx then px else qx, (if px < qx then qx else px) + 1,
              if py < qy then py else qy, (if py < qy then qy else py) + 1)
  }

  /** The last pixel extends the line. */
  lemma LineGrows(size: Size, rot: Rotation, x: int, y: int, across: bool, n: nat)
    requires n > 0
    ensures
      var (px, py) := if across then Place(size, rot, x + n - 1, y) else Place(size, rot, x, y + n - 1);
      var all, most := LineRect(size, rot, x, y, across, n), LineRect(size, rot, x, y, across, n - 1);
      forall x: nat, y: nat ::
        && (all.Has(x, y) <==> most.Has(x, y) || Dot(px, py).Has(x, y))
        && !(most.Has(x, y) && Dot(px, py).Has(x, y))
  {
    if across {
      match rot
      case 0 => case 1 => case 2 => case _ =>
    } else {
      match rot
      case 0 => case 1 => case 2 => case _ =>
    }
  }

  lemma {:induction false} PixelsDrawn(size: Size, buf: seq<bv8>, rot: Rotation, x: int, y: int, across: bool,
        n: int, ink: Ink)
    requires size.Ok() && |buf| == size.Octets()
    ensures Drawn(size, buf, Pixels(size, buf, rot, x, y, across, n, ink), ink, LineRect(size, rot, x, y, across, n))
    decreases n
  {
    hide Drawn, DrawPixel, PaintBit;
    if n <= 0 {
      DrawnNothing(size, buf, ink, LineRect(size, rot, x, y, across, n));
    } else {
      var before := Pixels(size, buf, rot, x, y, across, n - 1, ink);
      PixelsDrawn(size, buf, rot, x, y, across, n - 1, ink);
      var (lx, ly) := if across then (x + n - 1, y) else (x, y + n - 1);
      PixelDrawn(size, before, rot, lx, ly, ink);
      var (px, py) := Place(size, rot, lx, ly);
      LineGrows(size, rot, x, y, across, n);
      hide LineRect, Place, Rect.Has, Dot;
      DrawnBoth(size, buf, before, Pixels(size, buf, rot, x, y, across, n, ink), ink,
        LineRect(size, rot, x, y, across, n - 1), Dot(px, py), LineRect(size, rot, x, y, across, n));
    }
  }
}
