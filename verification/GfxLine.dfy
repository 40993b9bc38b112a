/** Bresenham's line against the geometry of the line. */
module GfxLine {
  import opened Words

  function Abs(n: int): nat { if n < 0 then -n else n }

  /** A line reduced to a walk along its longer axis: `run` steps of one from (`major`, `minor`), while the other
      coordinate changes by `rise`, upwards or downwards. */
  datatype Walk = Walk(steep: bool, major: int, minor: int, run: nat, rise: nat, up: bool)
  {
    function Minor(n: int): int { if up then minor + n else minor - n }
  }

  function WalkOf(x0: int, y0: int, x1: int, y1: int): (w: Walk)
    ensures w.rise <= w.run == (if Abs(y1 - y0) > Abs(x1 - x0) then Abs(y1 - y0) else Abs(x1 - x0))
  {
    var steep := Abs(y1 - y0) > Abs(x1 - x0);
    var (a0, b0, a1, b1) := if steep then (y0, x0, y1, x1) else (x0, y0, x1, y1);
    if a0 > a1 then Walk(steep, a1, b1, a0 - a1, Abs(b1 - b0), b1 < b0)
    else Walk(steep, a0, b0, a1 - a0, Abs(b1 - b0), b0 < b1)
  }

  /** How far the minor coordinate has got after `i` steps: `i * rise / run` rounded to the nearest, halves down. */
  function Offset(run: nat, rise: nat, i: nat): (n: nat)
    requires rise <= run
  {
    if run == 0 then 0 else
    assert i * rise + (run - 1) / 2 >= 0;
    (i * rise + (run - 1) / 2) / run
  }

  function PointAt(w: Walk, i: nat): (int, int)
    requires w.rise <= w.run
  {
    var a, b := w.major + i, w.Minor(Offset(w.run, w.rise, i));
    if w.steep then (b, a) else (a, b)
  }

  function LinePixels(x0: int, y0: int, x1: int, y1: int): (p: seq<(int, int)>)
  {
    var w := WalkOf(x0, y0, x1, y1);
    seq(w.run + 1, i requires 0 <= i <= w.run => PointAt(w, i))
  }

  // ---------------------------------------------------------------- geometry

  lemma OffsetIs(run: nat, rise: nat, i: nat, n: nat)
    requires rise <= run && 0 < run
    requires 0 <= run / 2 - i * rise + n * run < run
    ensures n == Offset(run, rise, i)
  {
    var t := i * rise + (run - 1) / 2;
    assert n * run <= t < (n + 1) * run;
    Quotient(t, run, n);
  }

  lemma MulMono(a: int, b: int, w: nat)
    requires a <= b
    ensures a * w <= b * w
  {
  }

  lemma LessMul(a: int, b: int, w: nat)
    requires 0 < w && a * w < b * w
    ensures a < b
  {
    if b <= a { MulMono(b, a, w); }
  }

  lemma Quotient(t: nat, d: nat, q: nat)
    requires 0 < d && q * d <= t < (q + 1) * d
    ensures t / d == q
  {
    var q' := t / d;
    assert t == q' * d + t % d;
    LessMul(q, q' + 1, d);
    LessMul(q', q + 1, d);
  }

  lemma OffsetBounds(run: nat, rise: nat, i: nat)
    requires rise <= run && 0 < run
    ensures
      var n := Offset(run, rise, i);
      0 <= run / 2 - i * rise + n * run < run
  {
    var t := i * rise + (run - 1) / 2;
    var n := t / run;
    assert t == n * run + t % run;
  }

  /** Twice the area between a point and the line through two others. */
  function Cross(x0: int, y0: int, x1: int, y1: int, x: int, y: int): int {
    (x - x0) * (y1 - y0) - (y - y0) * (x1 - x0)
  }

  lemma CrossFromEnd(x0: int, y0: int, x1: int, y1: int, x: int, y: int)
    ensures Cross(x0, y0, x1, y1, x, y) == -Cross(x1, y1, x0, y0, x, y)
  {
  }

  lemma CrossTurned(x0: int, y0: int, x1: int, y1: int, x: int, y: int)
    ensures Cross(y0, x0, y1, x1, y, x) == -Cross(x0, y0, x1, y1, x, y)
  {
  }

  lemma CrossAlong(w: Walk, i: nat, n: nat)
    ensures
      Abs(Cross(w.major, w.minor, w.major + w.run, w.Minor(w.rise), w.major + i, w.Minor(n)))
        == Abs(i * w.rise - n * w.run)
  {
  }

  /** The ends of the walk are the ends of the line. */
  lemma WalkEnds(x0: int, y0: int, x1: int, y1: int)
    ensures
      var w := WalkOf(x0, y0, x1, y1);
      var (p, q) := (PointAt(w, 0), PointAt(w, w.run));
      (p == (x0, y0) && q == (x1, y1)) || (p == (x1, y1) && q == (x0, y0))
  {
    var w := WalkOf(x0, y0, x1, y1);
    OffsetAtEnds(w.run, w.rise);
    hide Offset;
  }

  lemma OffsetAtEnds(run: nat, rise: nat)
    requires rise <= run
    ensures Offset(run, rise, 0) == 0 && Offset(run, rise, run) == rise
  {
    if run > 0 {
      OffsetIs(run, rise, 0, 0);
      OffsetIs(run, rise, run, rise);
    }
  }

  /** Every pixel is within half a pixel of the line, measured along the shorter axis. */
  lemma LineNear(x0: int, y0: int, x1: int, y1: int, i: nat)
    requires i < |LinePixels(x0, y0, x1, y1)|
    ensures
      var (x, y) := LinePixels(x0, y0, x1, y1)[i];
      2 * Abs(Cross(x0, y0, x1, y1, x, y)) <= |LinePixels(x0, y0, x1, y1)| - 1
  {
    var w := WalkOf(x0, y0, x1, y1);
    var n := Offset(w.run, w.rise, i);
    if w.run > 0 { OffsetBounds(w.run, w.rise, i); }
    CrossAlong(w, i, n);
    var (x, y) := PointAt(w, i);
    CrossFromEnd(x0, y0, x1, y1, x, y);
    CrossTurned(x0, y0, x1, y1, x, y);
    CrossTurned(x1, y1, x0, y0, x, y);
    hide Cross, Offset;
  }

  /** It is the nearest, and where the line passes midway between two, the one nearer to the first pixel's row. */
  lemma HalvesBack(x0: int, y0: int, x1: int, y1: int, i: nat)
    requires i < |LinePixels(x0, y0, x1, y1)| && (x0, y0) != (x1, y1)
    ensures
      var p := LinePixels(x0, y0, x1, y1);
      var steep, run := Abs(y1 - y0) > Abs(x1 - x0), |p| - 1;
      var rise := if steep then Abs(x1 - x0) else Abs(y1 - y0);
      var n := if steep then Abs(p[i].0 - p[0].0) else Abs(p[i].1 - p[0].1);
      -run <= 2 * (n * run - i * rise) < run
  {
    var w := WalkOf(x0, y0, x1, y1);
    OffsetAtEnds(w.run, w.rise);
    OffsetBounds(w.run, w.rise, i);
    hide Offset;
  }

  /** The pixels run from one end to the other, one for each place on the longer axis, and touch each other. */
  lemma LineConnected(x0: int, y0: int, x1: int, y1: int)
    ensures
      var p := LinePixels(x0, y0, x1, y1);
      var run := if Abs(y1 - y0) > Abs(x1 - x0) then Abs(y1 - y0) else Abs(x1 - x0);
      && |p| == run + 1
      && ((p[0] == (x0, y0) && p[run] == (x1, y1)) || (p[0] == (x1, y1) && p[run] == (x0, y0)))
      && forall i :: 0 <= i < run ==>
           var ((x, y), (x', y')) := (p[i], p[i + 1]);
           if Abs(y1 - y0) > Abs(x1 - x0) then y' == y + 1 && Abs(x' - x) <= 1 else x' == x + 1 && Abs(y' - y) <= 1
  {
    hide Offset;
    WalkEnds(x0, y0, x1, y1);
    var w := WalkOf(x0, y0, x1, y1);
    forall i | 0 <= i < w.run
      ensures Offset(w.run, w.rise, i) <= Offset(w.run, w.rise, i + 1) <= Offset(w.run, w.rise, i) + 1
    {
      OffsetGrows(w.run, w.rise, i);
    }
  }

  lemma OffsetGrows(run: nat, rise: nat, i: nat)
    requires rise <= run && 0 < run
    ensures Offset(run, rise, i) <= Offset(run, rise, i + 1) <= Offset(run, rise, i) + 1
  {
    OffsetBounds(run, rise, i);
    OffsetBounds(run, rise, i + 1);
    hide Offset;
    Between(run, Offset(run, rise, i), Offset(run, rise, i + 1));
  }

  lemma Between(run: nat, n: nat, m: nat)
    requires 0 < run && n * run - run < m * run < n * run + 2 * run
    ensures n <= m <= n + 1
  {
    LessMul(n - 1, m, run);
    LessMul(m, n + 2, run);
  }

  /** The same pixels, in the same order, whichever end is named first. */
  lemma LineReversible(x0: int, y0: int, x1: int, y1: int)
    ensures LinePixels(x0, y0, x1, y1) == LinePixels(x1, y1, x0, y0)
  {
    hide Offset;
    var w, v := WalkOf(x0, y0, x1, y1), WalkOf(x1, y1, x0, y0);
    if w.rise == 0 {
      forall i: nat
        ensures Offset(w.run, 0, i) == 0
      {
        FlatOffset(w.run, i);
      }
    }
  }

  lemma FlatOffset(run: nat, i: nat)
    ensures Offset(run, 0, i) == 0
  {
  }

  lemma OffsetAtMost(run: nat, rise: nat, i: nat)
    requires rise <= run && i <= run
    ensures Offset(run, rise, i) <= rise
  {
    if run > 0 {
      OffsetBounds(run, rise, i);
      hide Offset;
      MulMono(i, run, rise);
      LessMul(Offset(run, rise, i), rise + 1, run);
    }
  }

  // ---------------------------------------------------------------- the drawing loop

  /** The error term after `i` steps along and `n` across. */
  ghost predicate ErrorIs(w: Walk, i: nat, n: nat, err: int) {
    if w.run == 0 then w.rise == n == err == 0
    else err == w.run / 2 - i * w.rise + n * w.run && 0 <= err < w.run && w.rise <= w.run
  }

  lemma ErrorStart(w: Walk)
    requires w.rise <= w.run
    ensures ErrorIs(w, 0, 0, w.run / 2)
  {
  }

  lemma ErrorStep(w: Walk, i: nat, n: nat, err: int)
    requires ErrorIs(w, i, n, err)
    ensures 0 <= err && err <= w.run && w.rise <= w.run && n == Offset(w.run, w.rise, i)
    ensures if err < w.rise then ErrorIs(w, i + 1, n + 1, err - w.rise + w.run) else ErrorIs(w, i + 1, n, err - w.rise)
  {
    if w.run > 0 { OffsetIs(w.run, w.rise, i, n); }
  }

  lemma PixelNow(w: Walk, i: nat, n: nat, err: int)
    requires ErrorIs(w, i, n, err) && i <= w.run && -32768 <= w.minor < 32768 && -32768 <= w.Minor(w.rise) < 32768
    ensures -32768 <= w.Minor(n) < 32768 && w.rise <= w.run && 0 <= err <= w.run
    ensures PointAt(w, i) == if w.steep then (w.Minor(n), w.major + i) else (w.major + i, w.Minor(n))
    ensures w.Minor(n + 1) == w.Minor(n) + if w.up then 1 else -1
  {
    ErrorStep(w, i, n, err);
    OffsetAtMost(w.run, w.rise, i);
    hide Offset, ErrorIs;
  }

  /** The update of the error term, and of the minor coordinate when it is due. */
  method NextRow(y0: Int16, err0: Int16, dx: Int16, dy: Int16, ystep: int) returns (y: Int16, err: Int16)
    requires 0 <= dy <= dx && 0 <= err0 <= dx
    ensures err == (if err0 < dy then err0 - dy + dx else err0 - dy) && y == if err0 < dy then Wrap(y0 + ystep) else y0
  {
    hide Wrap;
    y := y0;
    err := Wrap(err0 - dy);
    if err < 0 {
      y := Wrap(y + ystep);
      err := Wrap(err + dx);
    }
  }

  /** The loop of `writeLine`. */
  method WalkPixels(steep: bool, x0: Int16, y0: Int16, x1: Int16, dx: Int16, dy: Int16, up: bool)
    returns (plot: seq<(int, int)>)
    requires 0 <= dy <= dx == x1 - x0 && x1 < 32767 && -32768 <= (if up then y0 + dy else y0 - dy) < 32768
    ensures
      var w := Walk(steep, x0, y0, dx, dy, up);
      plot == seq(w.run + 1, i requires 0 <= i <= w.run => PointAt(w, i))
  {
    hide Wrap, Offset, ErrorIs, PointAt;
    ghost var w := Walk(steep, x0, y0, dx, dy, up);
    ghost var i: nat, n: nat := 0, 0;
    ErrorStart(w);
    var a0, b0, err := x0, y0, Wrap(dx / 2);
    var ystep := if up then 1 else -1;
    plot := [];
    while a0 <= x1
      invariant 0 <= i <= w.run + 1 && a0 == w.major + i
      invariant ErrorIs(w, i, n, err)
      invariant b0 == Wrap(w.Minor(n))
      invariant |plot| == i && forall j :: 0 <= j < i ==> plot[j] == PointAt(w, j)
      decreases w.run + 1 - i
    {
      ghost var due := err;
      PixelNow(w, i, n, err);
      ErrorStep(w, i, n, err);
      plot := plot + [if steep then (b0, a0) else (a0, b0)];
      b0, err := NextRow(b0, err, dx, dy, ystep);
      n := if due < dy then n + 1 else n;
      a0 := Wrap(a0 + 1);
      i := i + 1;
    }
  }

  /** The loop counter after `n` turns from `x0`. */
  function Counter(x0: Int16, n: nat): Int16 { Wrap(x0 + n) }

  /** The counter passes the end of the longer axis, which stops the loop, exactly when the end is below the
      largest 16-bit number. */
  lemma StopsIff(x0: Int16, x1: Int16)
    requires x0 <= x1
    ensures (exists n: nat :: Counter(x0, n) > x1) <==> x1 < 32767
  {
    if x1 < 32767 { assert Counter(x0, x1 + 1 - x0) > x1; }
  }

  /** A line of two pixels that is never finished: after the second the counter is at the other end of its range. */
  lemma NeverStops(n: nat)
    ensures Counter(32766, n) <= 32767 && Counter(32766, 2) == -32768
  {
  }

  /** `writeLine`: the pixels in the order in which they are written. A line whose longer axis ends at the largest
      16-bit number is excluded, since the loop counter cannot pass it. */
  method WriteLine(x0: Int16, y0: Int16, x1: Int16, y1: Int16) returns (plot: seq<(int, int)>)
    requires Abs(x1 - x0) <= 32767 && Abs(y1 - y0) <= 32767
    requires if Abs(y1 - y0) > Abs(x1 - x0) then y0 < 32767 && y1 < 32767 else x0 < 32767 && x1 < 32767
    ensures plot == LinePixels(x0, y0, x1, y1)
  {
    hide Wrap, PointAt;
    var steep := Abs(y1 - y0) > Abs(x1 - x0);
    var a0, b0, a1, b1 := x0, y0, x1, y1;
    if steep { a0, b0, a1, b1 := b0, a0, b1, a1; }
    if a0 > a1 { a0, a1, b0, b1 := a1, a0, b1, b0; }
    var dx, dy := Wrap(a1 - a0), Wrap(Abs(b1 - b0));
    plot := WalkPixels(steep, a0, b0, a1, dx, dy, b0 < b1);
  }
}
