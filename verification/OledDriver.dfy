/** The SSD1306 driver object: its framebuffer and its drawing operations. */
module OledDriver {
  import opened OledPixels
  import opened OledLines
  import opened Words

  function Solid(ink: Ink): Ink { if ink.Other? then Black else ink }

  /** The rows a vertical line changes: all of them, or for a colour it does not know, whole pages only. */
  function Rows(ink: Ink, lo: nat, hi: nat): (nat, nat) {
    if ink.Other? then ((lo + 7) / 8 * 8, hi / 8 * 8) else (lo, hi)
  }

  function Column(ink: Ink, x: int, lo: nat, hi: nat): Rect {
    var (from, to) := Rows(ink, lo, hi);
    Rect(x, x + 1, from, to)
  }

  /** The ink of a colour number. */
  function InkOf(color: nat): Ink {
    match color
    case 0 => Black
    case 1 => White
    case 2 => Inverse
    case _ => Other
  }

  /** The part of the panel cleared for a line of another colour. */
  function Cleared(size: Size, rot: Rotation, x: Int16, y: Int16, across: bool, n: Int16): Rect {
    if Along(rot, across) then Rect(0, 0, 0, 0)
    else
      var (ox, oy) := Origin(size, rot, x, y, across, n);
      var (lo, hi) := Span(oy, n, size.h);
      Column(Other, ox, lo, hi)
  }

  /** These are the pages that lie in the line with all their rows. */
  lemma ClearedPages(size: Size, rot: Rotation, x: Int16, y: Int16, across: bool, n: Int16, c: nat, r: nat)
    requires size.Ok() && !Misdraws(size, rot, x, y, across, n) && c < size.w && r < size.h
    ensures Cleared(size, rot, x, y, across, n).Has(c, r) <==>
      && !Along(rot, across)
      && forall q: nat :: q < size.h && q / 8 == r / 8 ==> LineRect(size, rot, x, y, across, n).Has(c, q)
  {
    hide Origin, Span, Misdraws, LineRect;
    var area, line := Cleared(size, rot, x, y, across, n), Painted(size, rot, x, y, across, n);
    forall q: nat | q < size.h
      ensures line.Has(c, q) == LineRect(size, rot, x, y, across, n).Has(c, q)
    {
      PaintedIsLine(size, rot, x, y, across, n, c, q);
    }
    if !Along(rot, across) {
      PagesOf(line, c, r);
      var first, last := r / 8 * 8, r / 8 * 8 + 7;
      assert first / 8 == r / 8 && last / 8 == r / 8;
      assert (forall q: nat :: q < size.h && q / 8 == r / 8 ==> line.Has(c, q)) ==>
          line.Has(c, first) && line.Has(c, last);
    }
  }

  lemma PagesOf(line: Rect, c: nat, r: nat)
    requires 0 <= line.top <= line.bottom
    ensures Rect(line.left, line.right, (line.top + 7) / 8 * 8, line.bottom / 8 * 8).Has(c, r) <==>
      line.left <= c < line.right && line.top <= r / 8 * 8 && r / 8 * 8 + 7 < line.bottom
  {
  }

  /** A line of another colour does what its pixels one by one do, namely nothing, exactly when the pages it covers
      completely are dark. */
  lemma OtherColourIff(size: Size, before: seq<bv8>, after: seq<bv8>, rot: Rotation, x: Int16, y: Int16, across: bool,
        n: Int16)
    requires size.Ok() && Drawn(size, before, after, Black, Cleared(size, rot, x, y, across, n))
    ensures Pixels(size, before, rot, x, y, across, n, Other) == before
    ensures after == before <==>
      forall c: nat, r: nat :: c < size.w && r < size.h && Cleared(size, rot, x, y, across, n).Has(c, r) ==>
        !Lit(size, before, c, r)
  {
    PixelsDrawn(size, before, rot, x, y, across, n, Other);
    hide Lit, Pixels, LineRect, Cleared;
    Undone(size, before, Pixels(size, before, rot, x, y, across, n, Other), LineRect(size, rot, x, y, across, n));
    DarkIff(size, before, after, Cleared(size, rot, x, y, across, n));
  }

  lemma DarkIff(size: Size, before: seq<bv8>, after: seq<bv8>, area: Rect)
    requires size.Ok() && Drawn(size, before, after, Black, area)
    ensures after == before <==>
      forall x: nat, y: nat :: x < size.w && y < size.h && area.Has(x, y) ==> !Lit(size, before, x, y)
  {
    hide Lit;
    if forall x: nat, y: nat :: x < size.w && y < size.h && area.Has(x, y) ==> !Lit(size, before, x, y) {
      var none := Rect(0, 0, 0, 0);
      DrawnNothing(size, before, Black, none);
      assert Drawn(size, before, after, Black, none);
      DrawnOnce(size, before, after, before, Black, none, none);
    }
  }

  /** Colour 3 clears the first eight pixels of the first column. */
  lemma OtherColourClears(before: seq<bv8>, after: seq<bv8>)
    requires Size(128, 64).Ok() && |before| == Size(128, 64).Octets() && before[0] == 255
    requires InkOf(3).Other? && Drawn(Size(128, 64), before, after, Black, Cleared(Size(128, 64), 0, 0, 0, false, 8))
    ensures after != before && after[0] == 0
  {
    var size := Size(128, 64);
    assert Cleared(size, 0, 0, 0, false, 8) == Rect(0, 1, 0, 8);
    hide Cleared, Bit, InkOf;
    forall k: nat | k < 8
      ensures Bit(after[0], k) == Bit(0, k)
    {
      NoBits(k);
      assert At(size, 0, k / 8) == 0;
      assert Lit(size, after, 0, k) == Bit(after[0], k);
    }
    SameBits(after[0], 0);
  }

  lemma NoBits(k: nat)
    requires k < 8
    ensures !Bit(0, k)
  {
  }

  /** A framebuffer painted where the driver paints a line is what the pixels one by one make of it, or, when
      the driver's arithmetic goes wrong, visibly not. */
  lemma SameAsPixels(size: Size, before: seq<bv8>, after: seq<bv8>, rot: Rotation, x: Int16, y: Int16, across: bool,
        n: Int16, ink: Ink)
    requires size.Ok() && Drawn(size, before, after, ink, Painted(size, rot, x, y, across, n))
    ensures !Misdraws(size, rot, x, y, across, n) ==> after == Pixels(size, before, rot, x, y, across, n, ink)
    ensures ink.Inverse? && Misdraws(size, rot, x, y, across, n) ==>
      after != Pixels(size, before, rot, x, y, across, n, ink)
  {
    assert |before| == size.Octets();
    hide Drawn, Painted, LineRect, Span, Wrap, Origin, Pixels;
    if !Misdraws(size, rot, x, y, across, n) {
      PixelsDrawn(size, before, rot, x, y, across, n, ink);
      hide Misdraws;
      forall c: nat, r: nat | c < size.w && r < size.h
        ensures Painted(size, rot, x, y, across, n).Has(c, r) == LineRect(size, rot, x, y, across, n).Has(c, r)
      {
        PaintedIsLine(size, rot, x, y, across, n, c, r);
      }
      DrawnOnce(size, before, after, Pixels(size, before, rot, x, y, across, n, ink), ink,
        Painted(size, rot, x, y, across, n), LineRect(size, rot, x, y, across, n));
    } else if ink.Inverse? {
      var c, r := MisdrawnPixel(size, rot, x, y, across, n);
      InverseShows(size, before, after, Painted(size, rot, x, y, across, n), c, r);
      NoPixels(size, before, rot, x, y, across, n, ink);
    }
  }

  lemma NoPixels(size: Size, buf: seq<bv8>, rot: Rotation, x: Int16, y: Int16, across: bool, n: Int16, ink: Ink)
    requires size.Ok() && |buf| == size.Octets() && Misdraws(size, rot, x, y, across, n)
    ensures Pixels(size, buf, rot, x, y, across, n, ink) == buf
  {
    hide Wrap;
  }

  lemma MisdrawnPixel(size: Size, rot: Rotation, x: Int16, y: Int16, across: bool, n: Int16) returns (c: nat, r: nat)
    requires size.Ok() && Misdraws(size, rot, x, y, across, n)
    ensures c < size.w && r < size.h && Painted(size, rot, x, y, across, n).Has(c, r)
  {
    var (ox, oy) := Origin(size, rot, x, y, across, n);
    hide Origin;
    if Along(rot, across) { c, r := 0, oy; } else { c, r := ox, 0; }
  }

  /** Two stretches of a column that meet. */
  lemma ColumnGrows(size: Size, a: seq<bv8>, b: seq<bv8>, c: seq<bv8>, ink: Ink, x: nat, lo: int, mid: int, hi: int)
    requires size.Ok() && lo <= mid <= hi
    requires Drawn(size, a, b, ink, Rect(x, x + 1, lo, mid)) && Drawn(size, b, c, ink, Rect(x, x + 1, mid, hi))
    ensures Drawn(size, a, c, ink, Rect(x, x + 1, lo, hi))
  {
    hide Drawn;
    DrawnBoth(size, a, b, c, ink, Rect(x, x + 1, lo, mid), Rect(x, x + 1, mid, hi), Rect(x, x + 1, lo, hi));
  }

  /** A partial octet alone, before whole octets, and after them. */
  lemma PartOnly(size: Size, a: seq<bv8>, b: seq<bv8>, ink: Ink, x: nat, lo: nat, hi: nat)
    requires size.Ok() && Drawn(size, a, b, ink, Rect(x, x + 1, lo, hi)) && 8 * (lo / 8) < lo <= hi < 8 * (lo / 8) + 8
    ensures Drawn(size, a, b, Solid(ink), Column(ink, x, lo, hi))
  {
    assert |a| == size.Octets();
    hide Drawn, PaintBit, Lit;
    if ink.Other? {
      Undone(size, a, b, Rect(x, x + 1, lo, hi));
      DrawnNothing(size, a, Black, Column(ink, x, lo, hi));
    }
  }

  lemma HeadThenPages(size: Size, a: seq<bv8>, b: seq<bv8>, c: seq<bv8>, ink: Ink, x: nat, lo: nat, p: nat, hi: nat)
    requires size.Ok() && 8 * p - 8 < lo <= 8 * p <= hi
    requires Drawn(size, a, b, ink, Rect(x, x + 1, lo, 8 * p))
    requires Drawn(size, b, c, Solid(ink), Column(ink, x, 8 * p, hi))
    ensures Drawn(size, a, c, Solid(ink), Column(ink, x, lo, hi))
  {
    hide Drawn;
    if ink.Other? {
      Undone(size, a, b, Rect(x, x + 1, lo, 8 * p));
      assert Column(ink, x, lo, hi) == Column(ink, x, 8 * p, hi);
    } else {
      ColumnGrows(size, a, b, c, ink, x, lo, 8 * p, hi);
    }
  }

  lemma PagesThenTail(size: Size, a: seq<bv8>, b: seq<bv8>, c: seq<bv8>, ink: Ink, x: nat, q: nat, p: nat, hi: nat)
    requires size.Ok() && q <= p && 8 * p <= hi < 8 * p + 8
    requires Drawn(size, a, b, Solid(ink), Rect(x, x + 1, 8 * q, 8 * p))
    requires Drawn(size, b, c, ink, Rect(x, x + 1, 8 * p, hi))
    ensures Drawn(size, a, c, Solid(ink), Column(ink, x, 8 * q, hi))
  {
    hide Drawn;
    if ink.Other? {
      Undone(size, b, c, Rect(x, x + 1, 8 * p, hi));
      assert Column(ink, x, 8 * q, hi) == Rect(x, x + 1, 8 * q, 8 * p);
    } else {
      ColumnGrows(size, a, b, c, ink, x, 8 * q, 8 * p, hi);
    }
  }

  /** Painting the next octet of a row draws one more pixel. */
  lemma RowGrows(size: Size, a: seq<bv8>, b: seq<bv8>, ink: Ink, lo: nat, x: nat, y: nat)
    requires size.Ok() && lo <= x < size.w && y < size.h && Drawn(size, a, b, ink, Rect(lo, x, y, y + 1))
    ensures
      var i := At(size, x, y / 8);
      Drawn(size, a, b[i := PaintByte(ink, b[i], Mask(y % 8))], ink, Rect(lo, x + 1, y, y + 1))
  {
    assert |b| == size.Octets();
    hide Drawn, At, Mask, PaintByte;
    var i := At(size, x, y / 8);
    forall j: nat | j < 8
      ensures Bit(Mask(y % 8), j) == (y % 8 <= j < y % 8 + 1)
    {
      MaskBits(y % 8, j);
    }
    hide Bit;
    OctetDrawn(size, b, ink, x, y / 8, Mask(y % 8), y % 8, y % 8 + 1);
    DrawnBoth(size, a, b, b[i := PaintByte(ink, b[i], Mask(y % 8))], ink,
      Rect(lo, x, y, y + 1), Rect(x, x + 1, 8 * (y / 8) + y % 8, 8 * (y / 8) + y % 8 + 1), Rect(lo, x + 1, y, y + 1));
  }

  /** What becomes of an octet all of whose pixels are drawn. */
  function Whole(ink: Ink, b: bv8): bv8 { if ink.Inverse? then !b else if ink.White? then 255 else 0 }

  /** Writing a whole octet draws the eight pixels of its page. */
  lemma PageDrawn(size: Size, buf: seq<bv8>, ink: Ink, x: nat, p: nat)
    requires size.Ok() && |buf| == size.Octets() && x < size.w && p < size.h / 8
    ensures
      var i := At(size, x, p);
      Drawn(size, buf, buf[i := Whole(ink, buf[i])], Solid(ink), Rect(x, x + 1, 8 * p, 8 * p + 8))
  {
    hide Drawn, At;
    var i := At(size, x, p);
    AllBits();
    WholeByte(ink, buf[i]);
    hide Bit, PaintByte, Whole;
    OctetDrawn(size, buf, Solid(ink), x, p, 0xFF, 0, 8);
  }

  lemma AllBits()
    ensures forall j: nat :: j < 8 ==> Bit(0xFF, j)
  {
  }

  lemma WholeByte(ink: Ink, b: bv8)
    ensures PaintByte(Solid(ink), b, 0xFF) == Whole(ink, b)
  {
  }

  class Ssd1306 {
    const size: Size
    const buffer: array<bv8>
    var rotation: Rotation

    ghost predicate Ready()
      reads this
    {
      size.Ok() && buffer.Length == size.Octets()
    }

    constructor (size: Size)
      requires size.Ok()
      ensures Ready() && this.size == size && fresh(buffer) && rotation == 0
    {
      this.size := size;
      buffer := new bv8[size.Octets()];
      rotation := 0;
    }

    /** The switch on the rotation in `drawPixel`. */
    method Turn(x: Int16, y: Int16) returns (px: Int16, py: Int16)
      requires Ready() && OnScreen(size, rotation, x, y)
      ensures (px, py) == Place(size, rotation, x, y)
    {
      hide Wrap;
      px, py := x, y;
      match rotation {
        case 0 =>
        case 1 =>
          px, py := py, px;
          px := Wrap(size.w - px - 1);
        case 2 =>
          px := Wrap(size.w - px - 1);
          py := Wrap(size.h - py - 1);
        case _ =>
          px, py := py, px;
          py := Wrap(size.h - py - 1);
      }
    }

    method DrawPixel(x: Int16, y: Int16, ink: Ink)
      requires Ready()
      modifies buffer
      ensures buffer[..] == OledPixels.DrawPixel(size, old(buffer[..]), rotation, x, y, ink)
    {
      hide Wrap, Mask, PaintByte, At;
      var width, height := if rotation % 2 == 0 then size.w else size.h, if rotation % 2 == 0 then size.h else size.w;
      if x < 0 || x >= width || y < 0 || y >= height { return; }
      var px, py := Turn(x, y);
      var i := At(size, px, py / 8);
      buffer[i] := PaintByte(ink, buffer[i], Mask(py % 8));
    }

    method DrawFastHLineInternal(x0: Int16, y: Int16, w0: Int16, ink: Ink)
      requires Ready()
      modifies buffer
      ensures
        var (lo, hi) := Span(x0, w0, size.w);
        Drawn(size, old(buffer[..]), buffer[..], ink, Rect(lo, hi, y, y + 1))
    {
      hide Drawn, At, Mask, PaintByte, Wrap;
      var x, w := x0, w0;
      ghost var lo, hi := Span(x0, w0, size.w).0, Span(x0, w0, size.w).1;
      ghost var was := buffer[..];
      DrawnNothing(size, was, ink, Rect(lo, lo, y, y + 1));
      if y < 0 || y >= size.h {
        DrawnNothing(size, was, ink, Rect(lo, hi, y, y + 1));
        return;
      }
      if x < 0 {
        w := Wrap(w + x);
        x := 0;
      }
      if x + w > size.w { w := size.w - x; }
      if w <= 0 { return; }
      assert lo == x && hi == x + w;
      if ink.Other? {
        DrawnNothing(size, was, ink, Rect(lo, hi, y, y + 1));
        return;
      }
      var mask := Mask(y % 8);
      while w > 0
        invariant 0 <= w <= hi - lo && x == hi - w
        invariant Drawn(size, was, buffer[..], ink, Rect(lo, x, y, y + 1))
      {
        RowGrows(size, was, buffer[..], ink, lo, x, y);
        var i := At(size, x, y / 8);
        buffer[i] := PaintByte(ink, buffer[i], mask);
        x, w := x + 1, w - 1;
      }
    }

    /** The first, partial octet of a vertical line that does not begin on a page; the rows it covers. */
    method DrawHead(x: nat, y: nat, h: nat, ink: Ink) returns (done: nat)
      requires Ready() && x < size.w && 0 < h && y + h <= size.h && y % 8 != 0
      modifies buffer
      ensures done == if h < 8 - y % 8 then h else 8 - y % 8
      ensures Drawn(size, old(buffer[..]), buffer[..], ink, Rect(x, x + 1, y, y + done))
    {
      hide Drawn, At, PaintByte, Bit, HeadMask;
      var mod := 8 - y % 8;
      done := if h < mod then h else mod;
      var mask := HeadMask(mod, h);
      forall j: nat | j < 8
        ensures Bit(mask, j) == (y % 8 <= j < y % 8 + done)
      {
        HeadMaskBits(mod, h, j);
      }
      OctetDrawn(size, buffer[..], ink, x, y / 8, mask, y % 8, y % 8 + done);
      var i := At(size, x, y / 8);
      buffer[i] := PaintByte(ink, buffer[i], mask);
    }

    /** The last, partial octet, in page `p`. */
    method DrawTail(x: nat, p: nat, h: nat, ink: Ink)
      requires Ready() && x < size.w && h < 8 && p < size.h / 8
      modifies buffer
      ensures Drawn(size, old(buffer[..]), buffer[..], ink, Rect(x, x + 1, 8 * p, 8 * p + h))
    {
      hide Drawn, At, PaintByte, Bit, Postmask;
      var mask := Postmask(h % 8);
      forall j: nat | j < 8
        ensures Bit(mask, j) == (0 <= j < h)
      {
        PostmaskBits(h % 8, j);
      }
      OctetDrawn(size, buffer[..], ink, x, p, mask, 0, h);
      var i := At(size, x, p);
      buffer[i] := PaintByte(ink, buffer[i], mask);
    }

    /** Whole octets from page `q` on; what is left of the line, and the page it is in. */
    method DrawPages(x: nat, q: nat, h0: nat, ink: Ink) returns (p: nat, h: nat)
      requires Ready() && x < size.w && 8 * q + h0 <= size.h
      modifies buffer
      ensures h < 8 && q <= p && 8 * q + h0 == 8 * p + h
      ensures Drawn(size, old(buffer[..]), buffer[..], Solid(ink), Rect(x, x + 1, 8 * q, 8 * p))
    {
      hide Drawn, At, Whole, Solid;
      h := h0;
      p := q;
      ghost var was := buffer[..];
      DrawnNothing(size, was, Solid(ink), Rect(x, x + 1, 8 * q, 8 * q));
      while h >= 8
        invariant q <= p && 8 * p + h == 8 * q + h0
        invariant Drawn(size, was, buffer[..], Solid(ink), Rect(x, x + 1, 8 * q, 8 * p))
      {
        ghost var before := buffer[..];
        var i := At(size, x, p);
        PageDrawn(size, before, ink, x, p);
        buffer[i] := Whole(ink, buffer[i]);
        ColumnGrows(size, was, before, buffer[..], Solid(ink), x, 8 * q, 8 * p, 8 * p + 8);
        p, h := p + 1, h - 8;
      }
    }

    /** A vertical line that begins on page `q`. */
    method DrawAligned(x: nat, q: nat, h: nat, ink: Ink)
      requires Ready() && x < size.w && 8 * q + h <= size.h
      modifies buffer
      ensures Drawn(size, old(buffer[..]), buffer[..], Solid(ink), Column(ink, x, 8 * q, 8 * q + h))
    {
      hide Drawn, Solid, Column;
      ghost var was := buffer[..];
      var p, rest := DrawPages(x, q, h, ink);
      ghost var mid := buffer[..];
      if rest != 0 {
        DrawTail(x, p, rest, ink);
      } else {
        DrawnNothing(size, mid, ink, Rect(x, x + 1, 8 * p, 8 * p));
      }
      PagesThenTail(size, was, mid, buffer[..], ink, x, q, p, 8 * q + h);
    }

    /** A vertical line that is on the panel. */
    method DrawColumn(x: nat, y: nat, h: nat, ink: Ink)
      requires Ready() && x < size.w && 0 < h && y + h <= size.h
      modifies buffer
      ensures Drawn(size, old(buffer[..]), buffer[..], Solid(ink), Column(ink, x, y, y + h))
    {
      hide Drawn, Solid, Column;
      if y % 8 == 0 {
        DrawAligned(x, y / 8, h, ink);
        return;
      }
      ghost var was := buffer[..];
      var mod := 8 - y % 8;
      var done := DrawHead(x, y, h, ink);
      ghost var mid := buffer[..];
      if h < mod {
        PartOnly(size, was, mid, ink, x, y, y + h);
        return;
      }
      DrawAligned(x, y / 8 + 1, h - done, ink);
      HeadThenPages(size, was, mid, buffer[..], ink, x, y, y / 8 + 1, y + h);
    }

    method DrawFastVLineInternal(x: Int16, y0: Int16, h0: Int16, ink: Ink)
      requires Ready()
      modifies buffer
      ensures
        var (lo, hi) := Span(y0, h0, size.h);
        Drawn(size, old(buffer[..]), buffer[..], Solid(ink), Column(ink, x, lo, hi))
    {
      hide Drawn, Wrap;
      ghost var lo, hi := Span(y0, h0, size.h).0, Span(y0, h0, size.h).1;
      ghost var was := buffer[..];
      if x < 0 || x >= size.w {
        DrawnNothing(size, was, Solid(ink), Column(ink, x, lo, hi));
        return;
      }
      var yy, hh := y0, h0;
      if yy < 0 {
        hh := Wrap(hh + yy);
        yy := 0;
      }
      if yy + hh > size.h { hh := size.h - yy; }
      if hh <= 0 {
        DrawnNothing(size, was, Solid(ink), Column(ink, x, lo, hi));
        return;
      }
      DrawColumn(x, yy, hh, ink);
    }

    /** The line of `n` pixels to the right: pixel by pixel drawing of the same pixels, unless the 16-bit
        arithmetic goes wrong, which shows with INVERSE. */
    method DrawFastHLine(x0: Int16, y0: Int16, n: Int16, ink: Ink)
      requires Ready()
      modifies buffer
      ensures !ink.Other? && !Misdraws(size, rotation, x0, y0, true, n) ==>
        buffer[..] == Pixels(size, old(buffer[..]), rotation, x0, y0, true, n, ink)
      ensures ink.Inverse? && Misdraws(size, rotation, x0, y0, true, n) ==>
        buffer[..] != Pixels(size, old(buffer[..]), rotation, x0, y0, true, n, ink)
      ensures !ink.Other? ==>
        Drawn(size, old(buffer[..]), buffer[..], ink, Painted(size, rotation, x0, y0, true, n))
      ensures ink.Other? ==>
        Drawn(size, old(buffer[..]), buffer[..], Black, Cleared(size, rotation, x0, y0, true, n))
    {
      hide Wrap, Drawn, Span, Misdraws, Pixels;
      var x, y, swap := x0, y0, false;
      match rotation {
        case 0 =>
        case 1 =>
          swap := true;
          x, y := y, x;
          x := Wrap(size.w - x - 1);
        case 2 =>
          x := Wrap(size.w - x - 1);
          y := Wrap(size.h - y - 1);
          x := Wrap(x - (n - 1));
        case _ =>
          swap := true;
          x, y := y, x;
          y := Wrap(size.h - y - 1);
          y := Wrap(y - (n - 1));
      }
      assert (x, y) == Origin(size, rotation, x0, y0, true, n) && swap == (rotation % 2 == 1);
      hide Origin;
      ghost var was := buffer[..];
      if swap { DrawFastVLineInternal(x, y, n, ink); } else { DrawFastHLineInternal(x, y, n, ink); }
      if !ink.Other? { SameAsPixels(size, was, buffer[..], rotation, x0, y0, true, n, ink); }
      ghost var (lo, hi) := Span(x, n, size.w);
      if ink.Other? && !swap { NothingCleared(size, was, buffer[..], Rect(lo, hi, y, y + 1)); }
    }

    /** The line of `n` pixels downwards. */
    method DrawFastVLine(x0: Int16, y0: Int16, n: Int16, ink: Ink)
      requires Ready()
      modifies buffer
      ensures !ink.Other? && !Misdraws(size, rotation, x0, y0, false, n) ==>
        buffer[..] == Pixels(size, old(buffer[..]), rotation, x0, y0, false, n, ink)
      ensures ink.Inverse? && Misdraws(size, rotation, x0, y0, false, n) ==>
        buffer[..] != Pixels(size, old(buffer[..]), rotation, x0, y0, false, n, ink)
      ensures !ink.Other? ==>
        Drawn(size, old(buffer[..]), buffer[..], ink, Painted(size, rotation, x0, y0, false, n))
      ensures ink.Other? ==>
        Drawn(size, old(buffer[..]), buffer[..], Black, Cleared(size, rotation, x0, y0, false, n))
    {
      hide Wrap, Drawn, Span, Misdraws, Pixels;
      var x, y, swap := x0, y0, false;
      match rotation {
        case 0 =>
        case 1 =>
          swap := true;
          x, y := y, x;
          x := Wrap(size.w - x - 1);
          x := Wrap(x - (n - 1));
        case 2 =>
          x := Wrap(size.w - x - 1);
          y := Wrap(size.h - y - 1);
          y := Wrap(y - (n - 1));
        case _ =>
          swap := true;
          x, y := y, x;
          y := Wrap(size.h - y - 1);
      }
      assert (x, y) == Origin(size, rotation, x0, y0, false, n) && swap == (rotation % 2 == 1);
      hide Origin;
      ghost var was := buffer[..];
      if swap { DrawFastHLineInternal(x, y, n, ink); } else { DrawFastVLineInternal(x, y, n, ink); }
      if !ink.Other? { SameAsPixels(size, was, buffer[..], rotation, x0, y0, false, n, ink); }
      ghost var (lo, hi) := Span(x, n, size.w);
      if ink.Other? && swap { NothingCleared(size, was, buffer[..], Rect(lo, hi, y, y + 1)); }
    }
  }

  /** A colour that is none of the three changes no bit by a masked write. */
  lemma Undone(size: Size, a: seq<bv8>, b: seq<bv8>, area: Rect)
    requires size.Ok() && Drawn(size, a, b, Other, area)
    ensures a == b
  {
    DrawnNothing(size, a, Other, area);
    DrawnOnce(size, a, a, b, Other, area, area);
  }

  lemma NothingCleared(size: Size, a: seq<bv8>, b: seq<bv8>, area: Rect)
    requires size.Ok() && Drawn(size, a, b, Other, area)
    ensures Drawn(size, a, b, Black, Rect(0, 0, 0, 0))
  {
    hide Lit;
    Undone(size, a, b, area);
  }
}
