/** The midpoint circle against the geometry of the circle. */
module GfxCircle {
  import opened Words

  /** The state of the loop: the column, the row, and the decision term. */
  datatype Octant = Octant(x: int, y: int, f: int)

  function Start(r: nat): Octant { Octant(0, r, 1 - r) }

  function Step(o: Octant): Octant {
    if o.f >= 0 then Octant(o.x + 1, o.y - 1, o.f - 2 * (o.y - 1) + 2 * (o.x + 1) + 1)
    else Octant(o.x + 1, o.y, o.f + 2 * (o.x + 1) + 1)
  }

  /** The octant points from the one after `o` to the diagonal. */
  function Rest(o: Octant): (p: seq<(int, int)>)
    decreases o.y - o.x
  {
    if o.x < o.y then [(Step(o).x, Step(o).y)] + Rest(Step(o)) else []
  }

  /** How far inside (negative) or outside the circle a point is: the difference of the squared distances. */
  function Excess(r: nat, x: int, y: int): int { x * x + y * y - r * r }

  // ---------------------------------------------------------------- the loop

  /** The decision term is that of the next midpoint, and the point is nearest to the circle. */
  ghost predicate Tracks(r: nat, o: Octant) {
    && 0 <= o.x && 0 <= o.y <= r && o.x <= o.y + 1
    && o.f == (o.x + 1) * (o.x + 1) + o.y * o.y - o.y - r * r
    && -o.y <= Excess(r, o.x, o.y) <= o.y
    && (o.x < o.y ==> Excess(r, o.x, o.y) < o.y)
  }

  lemma StartTracks(r: nat)
    ensures Tracks(r, Start(r))
  {
  }

  lemma StepTracks(r: nat, o: Octant)
    requires Tracks(r, o) && o.x < o.y
    ensures Tracks(r, Step(o))
  {
    Squares(o.x);
    Squares(o.x + 1);
    Squares(o.y - 1);
    hide Excess;
    ExcessStep(r, o);
  }

  lemma Squares(x: int)
    ensures (x + 1) * (x + 1) == x * x + 2 * x + 1
  {
  }

  lemma ExcessStep(r: nat, o: Octant)
    ensures Excess(r, o.x + 1, o.y) == Excess(r, o.x, o.y) + 2 * o.x + 1
    ensures Excess(r, o.x + 1, o.y - 1) == Excess(r, o.x, o.y) + 2 * o.x + 1 - 2 * o.y + 1
    ensures o.f == (o.x + 1) * (o.x + 1) + o.y * o.y - o.y - r * r ==> o.f == Excess(r, o.x, o.y) + 2 * o.x + 1 - o.y
  {
  }

  // ---------------------------------------------------------------- the octant

  lemma {:induction false} RestTracks(r: nat, o: Octant, i: nat)
    requires Tracks(r, o) && i < |Rest(o)|
    ensures
      var (x, y) := Rest(o)[i];
      && x == o.x + 1 + i && 0 <= y
      && -y <= Excess(r, x, y) <= y
      && (i < |Rest(o)| - 1 ==> x < y)
      && (x < y ==> Excess(r, x, y) < y)
      && (i == |Rest(o)| - 1 ==> y <= x <= y + 1)
    decreases o.y - o.x
  {
    hide Tracks, Excess;
    StepTracks(r, o);
    if i > 0 { RestTracks(r, Step(o), i - 1); }
    ReadTracks(r, Step(o));
  }

  lemma ReadTracks(r: nat, o: Octant)
    requires Tracks(r, o)
    ensures 0 <= o.x <= o.y + 1 && 0 <= o.y
    ensures -o.y <= Excess(r, o.x, o.y) <= o.y && (o.x < o.y ==> Excess(r, o.x, o.y) < o.y)
  {
  }

  /** The octant is covered column by column, from the one next to the top to the diagonal, and every point
      differs from the circle by no more than its row. */
  lemma OctantCovered(r: nat)
    ensures
      var p := Rest(Start(r));
      && (forall i :: 0 <= i < |p| ==> p[i].0 == i + 1 && 0 <= p[i].1 && -p[i].1 <= Excess(r, p[i].0, p[i].1) <= p[i].1)
      && (forall i :: 0 <= i < |p| - 1 ==> p[i].0 < p[i].1)
      && (r > 0 ==> p != [] && p[|p| - 1].1 <= p[|p| - 1].0 <= p[|p| - 1].1 + 1)
  {
    hide Excess;
    StartTracks(r);
    var p := Rest(Start(r));
    forall i | 0 <= i < |p|
      ensures p[i].0 == i + 1 && 0 <= p[i].1 && -p[i].1 <= Excess(r, p[i].0, p[i].1) <= p[i].1
      ensures i < |p| - 1 ==> p[i].0 < p[i].1
      ensures i == |p| - 1 ==> p[i].1 <= p[i].0 <= p[i].1 + 1
    {
      RestTracks(r, Start(r), i);
    }
  }

  /** Before the diagonal the row is the nearest there is: the circle crosses the column less than half a
      pixel from it. */
  lemma NearestRow(r: nat, i: nat)
    requires i < |Rest(Start(r))| - 1
    ensures
      var (x, y) := Rest(Start(r))[i];
      (2 * y - 1) * (2 * y - 1) < 4 * (r * r - x * x) < (2 * y + 1) * (2 * y + 1)
  {
    StartTracks(r);
    RestTracks(r, Start(r), i);
    hide Rest;
    var (x, y) := Rest(Start(r))[i];
    HalfPixel(r, x, y);
  }

  lemma HalfPixel(r: nat, x: int, y: int)
    requires -y <= Excess(r, x, y) < y
    ensures (2 * y - 1) * (2 * y - 1) < 4 * (r * r - x * x) < (2 * y + 1) * (2 * y + 1)
  {
    var (n, s) := (r * r - x * x, y * y);
    assert (2 * y - 1) * (2 * y - 1) == 4 * s - 4 * y + 1;
    assert (2 * y + 1) * (2 * y + 1) == 4 * s + 4 * y + 1;
    assert Excess(r, x, y) == s - n;
  }

  // ---------------------------------------------------------------- the whole circle

  function Cardinal(r: int): seq<(int, int)> { [(0, r), (0, -r), (r, 0), (-r, 0)] }

  function Eight(x: int, y: int): seq<(int, int)> {
    [(x, y), (-x, y), (x, -y), (-x, -y), (y, x), (-y, x), (y, -x), (-y, -x)]
  }

  function AllEights(p: seq<(int, int)>): seq<(int, int)> {
    if p == [] then [] else Eight(p[0].0, p[0].1) + AllEights(p[1..])
  }

  /** The pixels of the circle around the origin, in the order in which they are written. */
  function Circle(r: nat): seq<(int, int)> { Cardinal(r) + AllEights(Rest(Start(r))) }

  lemma {:induction false} AllEightsHas(p: seq<(int, int)>, x: int, y: int)
    ensures (x, y) in AllEights(p) <==> exists i :: 0 <= i < |p| && (x, y) in Eight(p[i].0, p[i].1)
    decreases p
  {
    if p != [] {
      AllEightsHas(p[1..], x, y);
      if exists i :: 0 <= i < |p| && (x, y) in Eight(p[i].0, p[i].1) {
        var i :| 0 <= i < |p| && (x, y) in Eight(p[i].0, p[i].1);
        if i > 0 { assert p[1..][i - 1] == p[i]; }
      }
      if (x, y) in AllEights(p[1..]) {
        var i :| 0 <= i < |p[1..]| && (x, y) in Eight(p[1..][i].0, p[1..][i].1);
        assert p[i + 1] == p[1..][i];
      }
    }
  }

  function Abs(n: int): int { if n < 0 then -n else n }

  function Larger(x: int, y: int): int { if Abs(x) < Abs(y) then Abs(y) else Abs(x) }

  lemma ExcessSymmetric(r: nat, x: int, y: int, x': int, y': int)
    requires (x', y') in Eight(x, y)
    ensures Excess(r, x', y') == Excess(r, x, y) && Larger(x', y') == Larger(x, y)
  {
  }

  /** A mirror image of a point of the octant. */
  ghost predicate OnOctant(r: nat, x: int, y: int) {
    exists i :: 0 <= i < |Rest(Start(r))| && (x, y) in Eight(Rest(Start(r))[i].0, Rest(Start(r))[i].1)
  }

  lemma InCircle(r: nat, x: int, y: int)
    ensures (x, y) in Circle(r) <==> (x, y) in Cardinal(r) || OnOctant(r, x, y)
  {
    AllEightsHas(Rest(Start(r)), x, y);
    hide Rest, Eight, AllEights, Cardinal;
  }

  lemma CardinalFacts(r: nat, x: int, y: int)
    requires (x, y) in Cardinal(r)
    ensures Excess(r, x, y) == 0 && (-x, y) in Cardinal(r) && (x, -y) in Cardinal(r) && (y, x) in Cardinal(r)
  {
  }

  /** Every pixel of a circle is off it by no more than its larger coordinate. */
  lemma CircleNear(r: nat, x: int, y: int)
    requires (x, y) in Circle(r)
    ensures -Larger(x, y) <= Excess(r, x, y) <= Larger(x, y)
  {
    InCircle(r, x, y);
    hide Excess, Eight, Cardinal, Circle;
    if (x, y) in Cardinal(r) {
      CardinalFacts(r, x, y);
    } else {
      var i :| 0 <= i < |Rest(Start(r))| && (x, y) in Eight(Rest(Start(r))[i].0, Rest(Start(r))[i].1);
      var (a, b) := Rest(Start(r))[i];
      ExcessSymmetric(r, a, b, x, y);
      OctantCovered(r);
    }
  }

  /** A circle is its own mirror image in both axes and in the diagonal. */
  lemma CircleSymmetric(r: nat, x: int, y: int)
    requires (x, y) in Circle(r)
    ensures (-x, y) in Circle(r) && (x, -y) in Circle(r) && (y, x) in Circle(r)
  {
    InCircle(r, x, y);
    InCircle(r, -x, y);
    InCircle(r, x, -y);
    InCircle(r, y, x);
    hide Eight, Cardinal, Circle, Rest;
    if (x, y) in Cardinal(r) {
      CardinalFacts(r, x, y);
    } else {
      var i :| 0 <= i < |Rest(Start(r))| && (x, y) in Eight(Rest(Start(r))[i].0, Rest(Start(r))[i].1);
      var (a, b) := Rest(Start(r))[i];
      EightSymmetric(a, b, x, y);
    }
  }

  lemma EightSymmetric(a: int, b: int, x: int, y: int)
    requires (x, y) in Eight(a, b)
    ensures (-x, y) in Eight(a, b) && (x, -y) in Eight(a, b) && (y, x) in Eight(a, b)
  {
  }

  // ---------------------------------------------------------------- no gaps

  /** The outermost pixels in the four directions. */
  lemma Extremes(r: nat)
    ensures
      var s: int := r;
      (0, s) in Circle(r) && (0, -s) in Circle(r) && (s, 0) in Circle(r) && (-s, 0) in Circle(r)
  {
    hide AllEights, Rest;
    var s: int := r;
    var c := Cardinal(s);
    assert c[0] in c && c[1] in c && c[2] in c && c[3] in c;
  }

  lemma InOctant(r: nat, i: nat)
    requires i < |Rest(Start(r))|
    ensures
      var (x, y) := Rest(Start(r))[i];
      (x, y) in Circle(r) && (y, x) in Circle(r)
  {
    hide Circle, Rest, Cardinal;
    var (x, y) := Rest(Start(r))[i];
    assert Eight(x, y)[0] == (x, y);
    InCircle(r, x, y);
    CircleSymmetric(r, x, y);
  }

  /** The octant misses no row on its way down. */
  lemma {:induction false} RowReached(o: Octant, v: int) returns (i: nat)
    requires Rest(o) != [] && Rest(o)[|Rest(o)| - 1].1 <= v < o.y
    ensures i < |Rest(o)| && Rest(o)[i].1 == v
    decreases o.y - o.x
  {
    var n := Step(o);
    i := 0;
    if n.y != v {
      var j := RowReached(n, v);
      i := j + 1;
    }
  }

  lemma RightColumn(r: nat, x: int) returns (y: int)
    requires 0 <= x <= r
    ensures (x, y) in Circle(r)
  {
    var p := Rest(Start(r));
    Extremes(r);
    OctantCovered(r);
    hide Rest, Circle, Excess, Step;
    if x == 0 {
      y := r;
    } else if x == r {
      y := 0;
    } else if x <= |p| {
      InOctant(r, x - 1);
      y := p[x - 1].1;
    } else {
      var i := RowReached(Start(r), x);
      InOctant(r, i);
      y := p[i].0;
    }
  }

  /** Every column of the circle has a pixel, */
  lemma EveryColumn(r: nat, x: int) returns (y: int)
    requires Abs(x) <= r
    ensures (x, y) in Circle(r)
  {
    y := RightColumn(r, Abs(x));
    CircleSymmetric(r, Abs(x), y);
    hide Circle;
  }

  /** and so has every row. */
  lemma EveryRow(r: nat, y: int) returns (x: int)
    requires Abs(y) <= r
    ensures (x, y) in Circle(r)
  {
    x := EveryColumn(r, y);
    CircleSymmetric(r, y, x);
    hide Circle;
  }

  predicate Touch(p: (int, int), q: (int, int)) { Abs(p.0 - q.0) <= 1 && Abs(p.1 - q.1) <= 1 && p != q }

  /** Along the octant, from the topmost pixel on, each pixel touches the next; the last one meets the mirrored octant
      on the diagonal. So do all eight, by symmetry, and the circle is closed. */
  lemma OctantTouches(r: nat)
    requires r > 0
    ensures
      var q := [(0, r)] + Rest(Start(r));
      && |q| >= 2 && Connected(q)
      && (forall i :: 0 <= i < |q| ==> q[i] in Circle(r))
      && var (x, y) := q[|q| - 1];
      x == y || Touch((x, y), (y, x))
  {
    var p := Rest(Start(r));
    var q := [(0, r)] + p;
    Extremes(r);
    OctantCovered(r);
    RestTouches(Start(r));
    forall i | 0 <= i < |q|
      ensures q[i] in Circle(r)
    {
      if i > 0 { InOctant(r, i - 1); }
    }
    hide Rest, Circle, Excess;
  }

  /** Each pixel touches the next. */
  predicate Connected(q: seq<(int, int)>) { forall i :: 0 <= i < |q| - 1 ==> Touch(q[i], q[i + 1]) }

  lemma {:induction false} RestTouches(o: Octant)
    ensures Connected([(o.x, o.y)] + Rest(o))
    decreases o.y - o.x
  {
    if o.x < o.y {
      var n := Step(o);
      assert Touch((o.x, o.y), (n.x, n.y));
      assert Rest(o) == [(n.x, n.y)] + Rest(n);
      hide Touch, Connected, Step, Rest;
      RestTouches(n);
      TouchesFirst((o.x, o.y), Rest(o));
    }
  }

  lemma TouchesFirst(a: (int, int), p: seq<(int, int)>)
    requires p != [] && Touch(a, p[0]) && Connected(p)
    ensures Connected([a] + p)
  {
    forall i | 0 <= i < |p|
      ensures Touch(([a] + p)[i], ([a] + p)[i + 1])
    {
      if i > 0 { assert Touch(p[i - 1], p[i]); }
    }
  }

  // ---------------------------------------------------------------- the drawing loop

  function Placed(x0: Int16, y0: Int16, p: seq<(int, int)>): (q: seq<(Int16, Int16)>)
    ensures |q| == |p|
  {
    seq(|p|, i requires 0 <= i < |p| => (Wrap(x0 + p[i].0), Wrap(y0 + p[i].1)))
  }

  /** The source's step: the decision is taken on the 16-bit term. */
  function WordStep(o: Octant): Octant {
    if Wrap(o.f) >= 0 then Octant(o.x + 1, o.y - 1, o.f - 2 * (o.y - 1) + 2 * (o.x + 1) + 1)
    else Octant(o.x + 1, o.y, o.f + 2 * (o.x + 1) + 1)
  }

  function WordRest(o: Octant): (p: seq<(int, int)>)
    decreases o.y - o.x
  {
    if o.x < o.y then [(WordStep(o).x, WordStep(o).y)] + WordRest(WordStep(o)) else []
  }

  /** What `drawCircle` writes around the origin, for any radius it can be given. */
  function Written(r: int): seq<(int, int)> { Cardinal(r) + AllEights(WordRest(Octant(0, r, 1 - r))) }

  /** One turn of the loop up to the pixel writes. */
  method NextPoint(f0: Int16, ddFx0: Int16, ddFy0: Int16, x0: Int16, y0: Int16, ghost o: Octant)
    returns (f: Int16, ddFx: Int16, ddFy: Int16, x: Int16, y: Int16)
    requires o.x == x0 && o.y == y0 && 0 <= x0 < y0
    requires f0 == Wrap(o.f) && ddFx0 == Wrap(2 * o.x + 1) && ddFy0 == Wrap(-2 * o.y)
    ensures
      var n := WordStep(o);
      n.x == x && n.y == y && f == Wrap(n.f) && ddFx == Wrap(2 * n.x + 1) && ddFy == Wrap(-2 * n.y)
  {
    f, ddFx, ddFy, x, y := f0, ddFx0, ddFy0, x0, y0;
    NextTerms(o);
    hide Wrap;
    if f >= 0 {
      y := Wrap(y - 1);
      ddFy := Wrap(ddFy + 2);
      f := Wrap(f + ddFy);
    }
    x := Wrap(x + 1);
    ddFx := Wrap(ddFx + 2);
    f := Wrap(f + ddFx);
  }

  lemma NextTerms(o: Octant)
    ensures Wrap(Wrap(-2 * o.y) + 2) == Wrap(-2 * (o.y - 1)) && Wrap(Wrap(2 * o.x + 1) + 2) == Wrap(2 * (o.x + 1) + 1)
    ensures Wrap(Wrap(o.f) + Wrap(2 * (o.x + 1) + 1)) == Wrap(o.f + 2 * (o.x + 1) + 1)
    ensures
      Wrap(Wrap(Wrap(o.f) + Wrap(-2 * (o.y - 1))) + Wrap(2 * (o.x + 1) + 1))
        == Wrap(o.f - 2 * (o.y - 1) + 2 * (o.x + 1) + 1)
  {
    var a, b := -2 * (o.y - 1), 2 * (o.x + 1) + 1;
    WrapAdd(-2 * o.y, 2);
    WrapAdd(2 * o.x + 1, 2);
    WrapSum(o.f, b);
    WrapSum(o.f, a);
    WrapSum(o.f + a, b);
  }

  lemma WrapSum(a: int, b: int)
    ensures Wrap(Wrap(a) + Wrap(b)) == Wrap(a + b)
  {
    WrapAdd(a, Wrap(b));
    WrapAdd(b, a);
    hide Wrap;
  }

  lemma RestUnfolds(o: Octant)
    requires o.x < o.y
    ensures AllEights(WordRest(o)) == Eight(WordStep(o).x, WordStep(o).y) + AllEights(WordRest(WordStep(o)))
  {
    hide Eight;
    assert WordRest(o)[1..] == WordRest(WordStep(o));
  }

  lemma RestEnds(o: Octant)
    requires o.x >= o.y
    ensures AllEights(WordRest(o)) == []
  {
  }

  lemma PlacedGrows(x0: Int16, y0: Int16, p: seq<(int, int)>, q: seq<(int, int)>)
    ensures Placed(x0, y0, p + q) == Placed(x0, y0, p) + Placed(x0, y0, q)
  {
    hide Wrap;
  }

  /** `drawCircle`: the pixels in the order in which they are written. */
  method DrawCircle(x0: Int16, y0: Int16, r: Int16) returns (plot: seq<(Int16, Int16)>)
    ensures |plot| == |Written(r)|
    ensures forall i :: 0 <= i < |plot| ==> plot[i] == (Wrap(x0 + Written(r)[i].0), Wrap(y0 + Written(r)[i].1))
  {
    hide Wrap, Eight, WordRest, Placed, WordStep;
    var f, ddFx, ddFy := Wrap(1 - r as int), Wrap(1), Wrap(-2 * (r as int));
    var x: Int16, y: Int16 := 0, r;
    plot := Placed(x0, y0, Cardinal(r));
    ghost var o := Octant(0, r, 1 - r);
    ghost var done: seq<(int, int)> := Cardinal(r);
    assert done + AllEights(WordRest(o)) == Written(r);
    hide Cardinal, Written, AllEights;
    while x < y
      invariant 0 <= x && o.x == x && o.y == y
      invariant f == Wrap(o.f) && ddFx == Wrap(2 * o.x + 1) && ddFy == Wrap(-2 * o.y)
      invariant plot == Placed(x0, y0, done) && done + AllEights(WordRest(o)) == Written(r)
      decreases y as int - x as int
    {
      RestUnfolds(o);
      WordStepCloses(o);
      f, ddFx, ddFy, x, y := NextPoint(f, ddFx, ddFy, x, y, o);
      o := WordStep(o);
      PlacedGrows(x0, y0, done, Eight(x, y));
      plot := plot + Placed(x0, y0, Eight(x, y));
      done := done + Eight(x, y);
    }
    RestEnds(o);
    assert done == Written(r);
    PlacedAt(x0, y0, done);
  }

  lemma PlacedAt(x0: Int16, y0: Int16, p: seq<(int, int)>)
    ensures forall i :: 0 <= i < |p| ==> Placed(x0, y0, p)[i] == (Wrap(x0 + p[i].0), Wrap(y0 + p[i].1))
  {
  }

  lemma WordStepCloses(o: Octant)
    ensures WordStep(o).x == o.x + 1 && WordStep(o).y <= o.y
  {
  }

  // ---------------------------------------------------------------- when 16 bits are enough

  /** At every turn of the loop the decision term fits 16 bits. */
  ghost predicate TermsFit(o: Octant)
    decreases o.y - o.x
  {
    o.x < o.y ==> -32768 <= o.f < 32768 && TermsFit(Step(o))
  }

  /** In 17 bits it always does. */
  lemma TermBounds(r: nat, o: Octant)
    requires Tracks(r, o) && r <= 32767 && o.x < o.y
    ensures -65536 <= o.f < 65536 && 2 * o.x - 2 * o.y + 1 <= o.f <= 2 * o.x
  {
    ExcessStep(r, o);
    hide Excess;
  }

  lemma {:induction false} RestIff(r: nat, o: Octant)
    requires Tracks(r, o) && r <= 32767
    ensures WordRest(o) == Rest(o) <==> TermsFit(o)
    decreases o.y - o.x
  {
    hide Tracks;
    if o.x < o.y {
      TermBounds(r, o);
      if -32768 <= o.f < 32768 {
        StepTracks(r, o);
        RestIff(r, Step(o));
        assert WordRest(o)[1..] == WordRest(Step(o)) && Rest(o)[1..] == Rest(Step(o));
      } else {
        assert WordRest(o)[0] != Rest(o)[0];
      }
    }
  }

  lemma {:induction false} AllEightsInjective(p: seq<(int, int)>, q: seq<(int, int)>)
    requires AllEights(p) == AllEights(q)
    ensures p == q
    decreases p
  {
    if p != [] && q != [] {
      assert AllEights(p)[0] == p[0] && AllEights(q)[0] == q[0];
      assert AllEights(p)[8..] == AllEights(p[1..]) && AllEights(q)[8..] == AllEights(q[1..]);
      AllEightsInjective(p[1..], q[1..]);
      assert p == [p[0]] + p[1..] && q == [q[0]] + q[1..];
    }
  }

  /** The pixels written are those of the circle exactly when the decision term fits 16 bits at every turn. */
  lemma WrittenWhenFits(r: nat)
    requires r <= 32767
    ensures Written(r) == Circle(r) <==> TermsFit(Start(r))
  {
    StartTracks(r);
    RestIff(r, Start(r));
    hide AllEights, Rest, WordRest, TermsFit, Cardinal;
    if Written(r) == Circle(r) {
      var c := Cardinal(r);
      assert Written(r)[|c|..] == AllEights(WordRest(Start(r))) && Circle(r)[|c|..] == AllEights(Rest(Start(r)));
      AllEightsInjective(WordRest(Start(r)), Rest(Start(r)));
    }
  }

  /** The decision term in column `n` of the top row. */
  function TopRow(r: nat, n: nat): Octant { Octant(n, r, (n + 1) * (n + 1) - r) }

  lemma TopStep(r: nat, n: nat)
    requires 0 < n < r && n * n < r
    ensures TopRow(r, n - 1).x < TopRow(r, n - 1).y && Step(TopRow(r, n - 1)) == TopRow(r, n)
  {
    Squares(n);
  }

  lemma {:induction false} TopRowFits(r: nat, n: nat)
    requires TermsFit(Start(r)) && n < r && n * n < r
    ensures TermsFit(TopRow(r, n))
    decreases n
  {
    if n > 0 {
      Product(n, n, n - 1, n - 1);
      TopRowFits(r, n - 1);
      TopStep(r, n);
      hide Step, TopRow;
    }
  }

  /** A circle whose top row ends in column `n` goes wrong there when the term after the first step down, which
      reaches almost -2r, does not fit. */
  lemma LargeCircle(r: nat, n: nat)
    requires r <= 32767 && n * n < r <= (n + 1) * (n + 1) && n + 2 < r
    requires (n + 1) * (n + 1) - r - 2 * (r - 1) + 2 * (n + 1) + 1 < -32768
    ensures Written(r) != Circle(r)
  {
    WrittenWhenFits(r);
    if TermsFit(Start(r)) {
      TopRowFits(r, n);
    }
    hide Written, Circle;
  }

  predicate RightRadius(r: nat) { r <= 16556 || r == 16642 || r == 16643 }

  /** The least square of a column at which the `d`-th step down is taken. */
  function Least(r: nat, d: nat): int { (2 * d - 1) * r - d * d + d }

  lemma LeastNext(r: nat, d: nat)
    ensures Least(r, d + 1) == (2 * d + 1) * r - d * d - d
  {
    assert (d + 1) * (d + 1) == d * d + 2 * d + 1;
  }

  /** After `d` steps down. */
  ghost predicate Lowered(r: nat, o: Octant, d: nat) {
    o.x >= 0 && o.y == r - d && (d > 0 ==> o.x * o.x >= Least(r, d))
  }

  lemma TermLowered(r: nat, o: Octant, d: nat)
    requires Tracks(r, o) && o.y == r - d
    ensures o.f == (o.x + 1) * (o.x + 1) - Least(r, d + 1)
  {
    LeastNext(r, d);
    RowLowered(r, d);
    hide Least, Excess;
  }

  lemma RowLowered(r: nat, d: nat)
    ensures (r - d) * (r - d) - (r - d) - r * r == -((2 * d + 1) * r) + d * d + d
  {
    assert (r - d) * (r - d) == r * r - 2 * (d * r) + d * d;
  }

  lemma StepLowers(r: nat, o: Octant, d: nat)
    requires Tracks(r, o) && Lowered(r, o, d) && o.x < o.y
    ensures Lowered(r, Step(o), if o.f >= 0 then d + 1 else d)
  {
    TermLowered(r, o, d);
    Squares(o.x);
    hide Least, Tracks;
  }

  lemma LaterColumns(r: nat, d: nat)
    requires 3 <= d <= r
    ensures Least(r, d) >= 5 * r - 6
  {
    assert (2 * d - 1) * r - d * d + d - (5 * r - 6) == (d - 3) * (2 * r - d - 2);
    assert (d - 3) * (2 * r - d - 2) >= 0;
  }

  /** A square is at least that of `n` when it is above that of `n` - 1. */
  lemma AtLeast(x: int, n: nat)
    requires x >= 0 && n > 0 && x * x > (n - 1) * (n - 1)
    ensures x >= n && (x + 1) * (x + 1) >= (n + 1) * (n + 1)
  {
    if x < n {
      Product(n - 1, n - 1, x, x);
    } else {
      Product(x + 1, x + 1, n + 1, n + 1);
    }
  }

  lemma OneDown(r: nat, x: int)
    requires 16384 < r && RightRadius(r) && x >= 0 && x * x >= r
    ensures (x + 1) * (x + 1) - (3 * r - 2) >= -32768
  {
    AtLeast(x, if r > 16641 then 130 else 129);
  }

  lemma TwoDown(r: nat, x: int)
    requires 16384 < r <= 16643 && x >= 0 && x * x >= 3 * r - 2
    ensures (x + 1) * (x + 1) - (5 * r - 6) >= -32768
  {
    AtLeast(x, if r > 16608 then 224 else 222);
    Squares(x);
  }

  lemma ManyDown(r: nat, x: int, d: nat)
    requires 16384 < r <= 16643 && 3 <= d <= r && x >= 0 && x * x >= Least(r, d)
    ensures 2 * x - 2 * (r - d) + 1 >= -32768
  {
    LaterColumns(r, d);
    AtLeast(x, 287);
  }

  /** The decision term is least right after the first step down; there it fits for these radii. */
  lemma TermFits(r: nat, o: Octant, d: nat)
    requires Tracks(r, o) && Lowered(r, o, d) && RightRadius(r) && o.x < o.y
    ensures -32768 <= o.f < 32768
  {
    hide Tracks, Least;
    TermBounds(r, o);
    ColumnBound(r, o);
    if r > 16384 {
      TermLowered(r, o, d);
      FewDown(r);
      LeastBound(r, o.x, d);
    }
  }

  lemma ColumnBound(r: nat, o: Octant)
    requires Tracks(r, o) && r <= 16643 && o.x < o.y
    ensures o.x < 16384
  {
    Product(r, r + 1, o.y, 1);
    Product(16643, 16644, r, r + 1);
    if o.x >= 16384 {
      Product(o.x, o.x, 16384, 16384);
      Product(o.y, o.y, 16384, 16384);
    }
  }

  lemma FewDown(r: nat)
    ensures Least(r, 1) == r && Least(r, 2) == 3 * r - 2 && Least(r, 3) == 5 * r - 6
  {
  }

  lemma LeastBound(r: nat, x: int, d: nat)
    requires 16384 < r && RightRadius(r) && x >= 0 && d <= r && (d > 0 ==> x * x >= Least(r, d))
    ensures (x + 1) * (x + 1) - Least(r, d + 1) >= -32768 || 2 * x - 2 * (r - d) + 1 >= -32768
  {
    hide Least;
    FewDown(r);
    if d == 0 {
      Product(x + 1, x + 1, 0, 0);
    } else if d == 1 {
      OneDown(r, x);
    } else if d == 2 {
      TwoDown(r, x);
    } else {
      ManyDown(r, x, d);
    }
  }

  lemma {:induction false} AllTermsFit(r: nat, o: Octant, d: nat)
    requires Tracks(r, o) && Lowered(r, o, d) && RightRadius(r)
    ensures TermsFit(o)
    decreases o.y - o.x
  {
    if o.x < o.y {
      TermFits(r, o, d);
      StepTracks(r, o);
      StepLowers(r, o, d);
      hide Tracks, Lowered, RightRadius;
      AllTermsFit(r, Step(o), if o.f >= 0 then d + 1 else d);
    }
  }

  lemma {:induction false} LastColumn(r: nat, n: nat) returns (m: nat)
    requires n * n < r
    ensures n <= m && m * m < r <= (m + 1) * (m + 1)
    decreases r - n * n
  {
    m := n;
    if r > (n + 1) * (n + 1) {
      Squares(n);
      m := LastColumn(r, n + 1);
    }
  }

  /** For the other radii it does not. */
  lemma WrongRadius(r: nat)
    requires r <= 32767 && !RightRadius(r)
    ensures Written(r) != Circle(r)
  {
    var n := LastColumn(r, 128);
    Squares(n);
    Squares(n + 1);
    if n >= 130 { Product(n, n - 2, 130, 128); }
    if n <= 129 { assert n == 128 || n == 129; }
    hide Written, Circle;
    LargeCircle(r, n);
  }

  /** The pixels written are those of the circle exactly for the radii up to 16556, and for 16642 and 16643. */
  lemma WrittenIsCircleIff(r: nat)
    requires r <= 32767
    ensures Written(r) == Circle(r) <==> r <= 16556 || r == 16642 || r == 16643
  {
    if RightRadius(r) {
      StartTracks(r);
      AllTermsFit(r, Start(r), 0);
      WrittenWhenFits(r);
    } else {
      WrongRadius(r);
    }
    hide Written, Circle;
  }

  lemma Product(a: nat, b: nat, c: nat, d: nat)
    requires c <= a && d <= b
    ensures c * d <= a * b
  {
  }
}
