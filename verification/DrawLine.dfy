/** `drawLine` on the SSD1306: the choice between byte-masked lines and Bresenham's makes no difference. */
module DrawLine {
  import opened GfxLine
  import opened OledDriver
  import opened OledLines
  import opened OledPixels
  import opened Words

  /** Pixels drawn one after the other. */
  function PlotAll(size: Size, buf: seq<bv8>, rot: Rotation, plot: seq<(int, int)>, ink: Ink): (r: seq<bv8>)
    requires size.Ok() && |buf| == size.Octets()
    ensures |r| == |buf|
    decreases plot
  {
    if plot == [] then buf else
    var (x, y) := plot[|plot| - 1];
    OledPixels.DrawPixel(size, PlotAll(size, buf, rot, plot[..|plot| - 1], ink), rot, x, y, ink)
  }

  function Run(x: int, y: int, across: bool, n: nat): seq<(int, int)> {
    seq(n, i requires 0 <= i < n => if across then (x + i, y) else (x, y + i))
  }

  lemma {:induction false} RunIsPixels(size: Size, buf: seq<bv8>, rot: Rotation, x: int, y: int, across: bool,
        n: nat, ink: Ink)
    requires size.Ok() && |buf| == size.Octets()
    ensures PlotAll(size, buf, rot, Run(x, y, across, n), ink) == Pixels(size, buf, rot, x, y, across, n, ink)
    decreases n
  {
    hide OledPixels.DrawPixel;
    if n > 0 {
      RunIsPixels(size, buf, rot, x, y, across, n - 1, ink);
      assert Run(x, y, across, n)[..n - 1] == Run(x, y, across, n - 1);
    }
  }

  /** Bresenham's line along an axis is the run of pixels a fast line stands for. */
  lemma StraightLine(x0: int, y0: int, x1: int, y1: int)
    requires x0 == x1 || y0 == y1
    ensures
      var (x, y) := (if x0 < x1 then x0 else x1, if y0 < y1 then y0 else y1);
      LinePixels(x0, y0, x1, y1) == Run(x, y, x0 != x1, Abs(x1 - x0) + Abs(y1 - y0) + 1)
  {
    hide Offset;
    var w := WalkOf(x0, y0, x1, y1);
    assert w.rise == 0;
    forall i: nat
      ensures Offset(w.run, 0, i) == 0
    {
      FlatOffset(w.run, i);
    }
  }

  // ---------------------------------------------------------------- straight lines too long for 16 bits

  /** Whether the driver draws the line from its other end. */
  predicate Backward(rot: Rotation, across: bool) { rot == 2 || (rot % 2 == 1 && across == (rot == 3)) }

  function Extent(size: Size, rot: Rotation, across: bool): nat { if Along(rot, across) then size.w else size.h }

  /** A straight line of more than 32767 pixels has a length that is not positive in 16 bits. By luck it is painted all
      the same, by the wrapping sum of start and length. */
  predicate Lucky(size: Size, rot: Rotation, across: bool, first: Int16, last: Int16) {
    if Backward(rot, across) then
      last >= Extent(size, rot, across) && first > Extent(size, rot, across) - 32768
    else last < 32767
  }

  lemma LongForward(first: Int16, last: Int16, limit: nat, c: nat)
    requires last - first >= 32767 && c < limit <= 255
    ensures Covers(first, Wrap(last - first + 1), limit, c) <==> c <= last < 32767
  {
  }

  lemma LongBackward(first: Int16, last: Int16, limit: nat, c: nat)
    requires last - first >= 32767 && c < limit <= 255
    ensures
      var n := Wrap(last - first + 1);
      Covers(Wrap(Wrap(limit - first - 1) - (n - 1)), n, limit, c) <==> last >= limit && first > limit - 32768
  {
  }

  /** Of such a line everything is painted, or nothing. */
  predicate AllOrNothing(size: Size, rot: Rotation, x: Int16, y: Int16, across: bool, last: Int16, c: nat, r: nat) {
    var first := if across then x else y;
    Painted(size, rot, x, y, across, Wrap(last - first + 1)).Has(c, r) ==
      (LineRect(size, rot, x, y, across, last - first + 1).Has(c, r) && Lucky(size, rot, across, first, last))
  }

  lemma LongUpright(size: Size, x: Int16, y: Int16, across: bool, last: Int16, c: nat, r: nat)
    requires size.Ok() && c < size.w && r < size.h && last - (if across then x else y) >= 32767
    ensures AllOrNothing(size, 0, x, y, across, last, c, r)
  {
    var n := Wrap(last - (if across then x else y) + 1);
    hide Wrap, Span;
    if across {
      assert Painted(size, 0, x, y, across, n).Has(c, r) == (Covers(x, n, size.w, c) && y == r);
      LongForward(x, last, size.w, c);
    } else {
      assert Painted(size, 0, x, y, across, n).Has(c, r) == (x == c && Covers(y, n, size.h, r));
      LongForward(y, last, size.h, r);
    }
  }

  lemma LongQuarter(size: Size, x: Int16, y: Int16, across: bool, last: Int16, c: nat, r: nat)
    requires size.Ok() && c < size.w && r < size.h && last - (if across then x else y) >= 32767
    ensures AllOrNothing(size, 1, x, y, across, last, c, r)
  {
    var n := Wrap(last - (if across then x else y) + 1);
    hide Wrap, Span;
    var (ox, oy) := Origin(size, 1, x, y, across, n);
    if across {
      assert Painted(size, 1, x, y, across, n).Has(c, r) == (ox == c && Covers(oy, n, size.h, r));
      MirrorRight(y, size.w, c);
      LongForward(x, last, size.h, r);
    } else {
      assert Painted(size, 1, x, y, across, n).Has(c, r) == (Covers(ox, n, size.w, c) && oy == r);
      LongBackward(y, last, size.w, c);
    }
  }

  lemma LongHalf(size: Size, x: Int16, y: Int16, across: bool, last: Int16, c: nat, r: nat)
    requires size.Ok() && c < size.w && r < size.h && last - (if across then x else y) >= 32767
    ensures AllOrNothing(size, 2, x, y, across, last, c, r)
  {
    var n := Wrap(last - (if across then x else y) + 1);
    hide Wrap, Span;
    var (ox, oy) := Origin(size, 2, x, y, across, n);
    if across {
      assert Painted(size, 2, x, y, across, n).Has(c, r) == (Covers(ox, n, size.w, c) && oy == r);
      MirrorRight(y, size.h, r);
      LongBackward(x, last, size.w, c);
    } else {
      assert Painted(size, 2, x, y, across, n).Has(c, r) == (ox == c && Covers(oy, n, size.h, r));
      MirrorRight(x, size.w, c);
      LongBackward(y, last, size.h, r);
    }
  }

  lemma LongThreeQuarter(size: Size, x: Int16, y: Int16, across: bool, last: Int16, c: nat, r: nat)
    requires size.Ok() && c < size.w && r < size.h && last - (if across then x else y) >= 32767
    ensures AllOrNothing(size, 3, x, y, across, last, c, r)
  {
    var n := Wrap(last - (if across then x else y) + 1);
    hide Wrap, Span;
    var (ox, oy) := Origin(size, 3, x, y, across, n);
    if across {
      assert Painted(size, 3, x, y, across, n).Has(c, r) == (ox == c && Covers(oy, n, size.h, r));
      LongBackward(x, last, size.h, r);
    } else {
      assert Painted(size, 3, x, y, across, n).Has(c, r) == (Covers(ox, n, size.w, c) && oy == r);
      MirrorRight(x, size.h, r);
      LongForward(y, last, size.w, c);
    }
  }

  lemma LongPainted(size: Size, rot: Rotation, x: Int16, y: Int16, across: bool, last: Int16, c: nat, r: nat)
    requires size.Ok() && c < size.w && r < size.h && last - (if across then x else y) >= 32767
    ensures AllOrNothing(size, rot, x, y, across, last, c, r)
  {
    hide AllOrNothing;
    match rot
    case 0 => LongUpright(size, x, y, across, last, c, r);
    case 1 => LongQuarter(size, x, y, across, last, c, r);
    case 2 => LongHalf(size, x, y, across, last, c, r);
    case _ => LongThreeQuarter(size, x, y, across, last, c, r);
  }

  /** The painting is right: when the line is not on the panel, or else when it is lucky. */
  predicate LongRight(size: Size, rot: Rotation, x: Int16, y: Int16, across: bool, last: Int16) {
    last < 0 || !OnScreen(size, rot, if across then 0 else x, if across then y else 0)
    || Lucky(size, rot, across, if across then x else y, last)
  }

  lemma ShownPixel(size: Size, rot: Rotation, x: Int16, y: Int16, across: bool, last: Int16) returns (c: nat, r: nat)
    requires size.Ok() && last - (if across then x else y) >= 32767
    requires last >= 0 && OnScreen(size, rot, if across then 0 else x, if across then y else 0)
    ensures c < size.w && r < size.h
    ensures LineRect(size, rot, x, y, across, last - (if across then x else y) + 1).Has(c, r)
  {
    var (px, py) := Place(size, rot, if across then 0 else x, if across then y else 0);
    c, r := px, py;
    match rot
    case 0 => case 1 => case 2 => case _ =>
  }

  lemma NotShown(size: Size, rot: Rotation, x: Int16, y: Int16, across: bool, last: Int16, c: nat, r: nat)
    requires size.Ok() && c < size.w && r < size.h && last - (if across then x else y) >= 32767
    requires last < 0 || !OnScreen(size, rot, if across then 0 else x, if across then y else 0)
    ensures !LineRect(size, rot, x, y, across, last - (if across then x else y) + 1).Has(c, r)
  {
    match rot
    case 0 => case 1 => case 2 => case _ =>
  }

  lemma PaintedWhenRight(size: Size, rot: Rotation, x: Int16, y: Int16, across: bool, last: Int16, c: nat, r: nat)
    requires size.Ok() && c < size.w && r < size.h && last - (if across then x else y) >= 32767
    ensures
      var len := last - (if across then x else y) + 1;
      Painted(size, rot, x, y, across, Wrap(len)).Has(c, r) ==
        (LineRect(size, rot, x, y, across, len).Has(c, r) && LongRight(size, rot, x, y, across, last))
  {
    LongPainted(size, rot, x, y, across, last, c, r);
    hide Painted, LineRect, Wrap, Lucky, OnScreen;
    if last < 0 || !OnScreen(size, rot, if across then 0 else x, if across then y else 0) {
      NotShown(size, rot, x, y, across, last, c, r);
    }
  }

  /** The panel ends up with the pixels of such a line exactly then, as INVERSE shows. */
  lemma LongLineIff(size: Size, before: seq<bv8>, after: seq<bv8>, rot: Rotation, x: Int16, y: Int16, across: bool,
        last: Int16, ink: Ink)
    requires size.Ok() && last - (if across then x else y) >= 32767
    requires
      Drawn(size, before, after, ink, Painted(size, rot, x, y, across, Wrap(last - (if across then x else y) + 1)))
    ensures
      var all := Pixels(size, before, rot, x, y, across, last - (if across then x else y) + 1, ink);
      && (LongRight(size, rot, x, y, across, last) ==> after == all)
      && (ink.Inverse? && !LongRight(size, rot, x, y, across, last) ==> after != all)
  {
    var len := last - (if across then x else y) + 1;
    var all := Pixels(size, before, rot, x, y, across, len, ink);
    var line, painted := LineRect(size, rot, x, y, across, len), Painted(size, rot, x, y, across, Wrap(len));
    PixelsDrawn(size, before, rot, x, y, across, len, ink);
    hide Drawn, Painted, LineRect, Pixels, Wrap, Lucky, OnScreen;
    var right := LongRight(size, rot, x, y, across, last);
    forall c: nat, r: nat | c < size.w && r < size.h
      ensures painted.Has(c, r) == (right && line.Has(c, r))
    {
      PaintedWhenRight(size, rot, x, y, across, last, c, r);
    }
    if right {
      DrawnOnce(size, before, after, all, ink, painted, line);
    } else if ink.Inverse? {
      var c, r := ShownPixel(size, rot, x, y, across, last);
      InverseShows(size, before, all, line, c, r);
      NothingPainted(size, before, after, ink, painted);
    }
  }

  lemma NothingPainted(size: Size, before: seq<bv8>, after: seq<bv8>, ink: Ink, area: Rect)
    requires size.Ok() && Drawn(size, before, after, ink, area)
    requires forall c: nat, r: nat :: c < size.w && r < size.h ==> !area.Has(c, r)
    ensures after == before
  {
    DrawnNothing(size, before, ink, area);
    DrawnOnce(size, before, before, after, ink, area, area);
  }

  /** A line whose pixels all come out: any slanted line, any straight one of up to 32767 pixels, and some longer. */
  predicate AllPixels(size: Size, rot: Rotation, x0: Int16, y0: Int16, x1: Int16, y1: Int16) {
    if x0 == x1 then Abs(y1 - y0) < 32767 || LongRight(size, rot, x0, Least(y0, y1), false, Greatest(y0, y1))
    else if y0 == y1 then Abs(x1 - x0) < 32767 || LongRight(size, rot, Least(x0, x1), y0, true, Greatest(x0, x1))
    else true
  }

  function Least(a: Int16, b: Int16): Int16 { if a > b then b else a }

  function Greatest(a: Int16, b: Int16): Int16 { if a > b then a else b }

  /** A row of 32768 pixels from the left edge is not drawn; from one pixel further left it is. */
  lemma LongRows()
    ensures !AllPixels(Size(128, 64), 0, 0, 5, 32767, 5) && AllPixels(Size(128, 64), 0, -1, 5, 32766, 5)
  {
  }

  /** Whatever the direction, the panel ends up with Bresenham's pixels drawn one by one, for those lines and in the
      three colours; in another colour a straight line clears pages instead. */
  method OnPanel(d: Ssd1306, x0: Int16, y0: Int16, x1: Int16, y1: Int16, ink: Ink)
    requires d.Ready()
    requires x0 == x1 || y0 == y1 ||
      (&& Abs(x1 - x0) <= 32767 && Abs(y1 - y0) <= 32767
       && if Abs(y1 - y0) > Abs(x1 - x0) then y0 < 32767 && y1 < 32767 else x0 < 32767 && x1 < 32767)
    modifies d.buffer
    ensures AllPixels(d.size, d.rotation, x0, y0, x1, y1) && (ink.Other? ==> x0 != x1 && y0 != y1) ==>
      d.buffer[..] == PlotAll(d.size, old(d.buffer[..]), d.rotation, LinePixels(x0, y0, x1, y1), ink)
    ensures ink.Inverse? && !AllPixels(d.size, d.rotation, x0, y0, x1, y1) ==>
      d.buffer[..] != PlotAll(d.size, old(d.buffer[..]), d.rotation, LinePixels(x0, y0, x1, y1), ink)
    ensures ink.Other? && (x0 == x1 || y0 == y1) ==>
      Drawn(d.size, old(d.buffer[..]), d.buffer[..], Black,
            Cleared(d.size, d.rotation, Least(x0, x1), Least(y0, y1), x0 != x1, Wrap(Abs(x1 - x0) + Abs(y1 - y0) + 1)))
  {
    hide Drawn, Cleared, Wrap, LinePixels, PlotAll, LongRight, Run;
    if x0 == x1 {
      var (top, bottom) := if y0 > y1 then (y1, y0) else (y0, y1);
      DrawStraight(d, x0, top, false, bottom, ink);
      StraightLine(x0, y0, x1, y1);
    } else if y0 == y1 {
      var (left, right) := if x0 > x1 then (x1, x0) else (x0, x1);
      DrawStraight(d, left, y0, true, right, ink);
      StraightLine(x0, y0, x1, y1);
    } else {
      DrawDiagonal(d, x0, y0, x1, y1, ink);
    }
  }

  /** A fast line up to `last`. */
  method DrawStraight(d: Ssd1306, x: Int16, y: Int16, across: bool, last: Int16, ink: Ink)
    requires d.Ready() && last >= if across then x else y
    modifies d.buffer
    ensures
      var len := last - (if across then x else y) + 1;
      var all := PlotAll(d.size, old(d.buffer[..]), d.rotation, Run(x, y, across, len), ink);
      var right := len < 32768 || LongRight(d.size, d.rotation, x, y, across, last);
      && (!ink.Other? && right ==> d.buffer[..] == all)
      && (ink.Inverse? && !right ==> d.buffer[..] != all)
      && (ink.Other? ==>
            Drawn(d.size, old(d.buffer[..]), d.buffer[..], Black, Cleared(d.size, d.rotation, x, y, across, Wrap(len))))
  {
    hide OledPixels.DrawPixel, Misdraws, Drawn, Cleared, Painted, Pixels, PlotAll, Run, LongRight;
    ghost var was := d.buffer[..];
    var len := last - (if across then x else y) + 1;
    var n := Wrap(len);
    RunIsPixels(d.size, was, d.rotation, x, y, across, len, ink);
    if len < 32768 { NonNegativeIsRight(d.size, d.rotation, x, y, across, n); }
    if across { d.DrawFastHLine(x, y, n, ink); } else { d.DrawFastVLine(x, y, n, ink); }
    if !ink.Other? && len >= 32768 {
      LongLineIff(d.size, was, d.buffer[..], d.rotation, x, y, across, last, ink);
    }
  }

  method DrawDiagonal(d: Ssd1306, x0: Int16, y0: Int16, x1: Int16, y1: Int16, ink: Ink)
    requires d.Ready() && Abs(x1 - x0) <= 32767 && Abs(y1 - y0) <= 32767
    requires if Abs(y1 - y0) > Abs(x1 - x0) then y0 < 32767 && y1 < 32767 else x0 < 32767 && x1 < 32767
    modifies d.buffer
    ensures d.buffer[..] == PlotAll(d.size, old(d.buffer[..]), d.rotation, LinePixels(x0, y0, x1, y1), ink)
  {
    hide OledPixels.DrawPixel, LinePixels;
    ghost var was := d.buffer[..];
    var plot := WriteLine(x0, y0, x1, y1);
    InRange(x0, y0, x1, y1);
    assert plot[..0] == [];
    var i := 0;
    while i < |plot|
      invariant 0 <= i <= |plot| && d.buffer[..] == PlotAll(d.size, was, d.rotation, plot[..i], ink)
    {
      var (x, y) := plot[i];
      d.DrawPixel(x, y, ink);
      i := i + 1;
      assert plot[..i][..i - 1] == plot[..i - 1];
    }
    assert plot[..i] == plot;
  }

  /** Every pixel of a line lies between its ends. */
  lemma InRange(x0: Int16, y0: Int16, x1: Int16, y1: Int16)
    ensures forall i :: 0 <= i < |LinePixels(x0, y0, x1, y1)| ==>
      var (x, y) := LinePixels(x0, y0, x1, y1)[i];
      (x0 <= x <= x1 || x1 <= x <= x0) && (y0 <= y <= y1 || y1 <= y <= y0)
  {
    var w := WalkOf(x0, y0, x1, y1);
    hide Offset;
    forall i: nat | i <= w.run
      ensures Offset(w.run, w.rise, i) <= w.rise
    {
      OffsetAtMost(w.run, w.rise, i);
    }
  }
}
