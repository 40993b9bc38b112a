/** The oversampling phase-locked loop and integrate-and-dump detector of the ASK receiver. */
module AskPll {

  const RAMP_LEN := 160
  const RAMP_INC := 20
  const RAMP_TRANSITION := 80
  const RAMP_INC_RETARD := 11
  const RAMP_INC_ADVANCE := 29

  datatype Pll = Pll(ramp: nat, last: bool, integrator: nat)

  /** One sample: the new loop state, and the detected bit when the ramp wraps. */
  function Step(p: Pll, sample: bool): (r: (Pll, seq<bool>))
    ensures |r.1| <= 1
  {
    var integrator := if sample then p.integrator + 1 else p.integrator;
    var inc :=
      if sample != p.last then (if p.ramp < RAMP_TRANSITION then RAMP_INC_RETARD else RAMP_INC_ADVANCE)
      else RAMP_INC;
    if p.ramp + inc >= RAMP_LEN then
      (Pll(p.ramp + inc - RAMP_LEN, sample, 0), [integrator >= 5])
    else
      (Pll(p.ramp + inc, sample, integrator), [])
  }

  /** A run over samples: the final loop state and all detected bits in order. */
  function Run(p: Pll, samples: seq<bool>): (Pll, seq<bool>)
    decreases samples
  {
    if samples == [] then (p, []) else
    var (q, d) := Step(p, samples[0]);
    var (r, ds) := Run(q, samples[1..]);
    (r, d + ds)
  }

  lemma {:induction false} RunConcat(p: Pll, a: seq<bool>, b: seq<bool>)
    ensures
      var (q, d) := Run(p, a);
      var (r, e) := Run(q, b);
      Run(p, a + b) == (r, d + e)
    decreases a
  {
    if a == [] {
      assert a + b == b;
      assert [] + Run(p, b).1 == Run(p, b).1;
    } else {
      assert (a + b)[1..] == a[1..] + b;
      var (q, d) := Step(p, a[0]);
      var (r, ds) := Run(q, a[1..]);
      RunConcat(q, a[1..], b);
      assert d + (ds + Run(r, b).1) == (d + ds) + Run(r, b).1;
    }
  }

  // ---------------------------------------------------------------- any sample stream

  /** The least and greatest ramp value `k` samples after a wrap. */
  function RampLow(k: nat): nat { if k <= 8 then 11 * k else 88 + 20 * (k - 8) }

  function RampHigh(k: nat): nat {
    if k <= 3 then 28 + 20 * k else if k == 4 then 117 else if k == 5 then 146 else 159
  }

  /** `k` samples into a window that started at a wrap. */
  ghost predicate InWindow(p: Pll, k: nat) {
    k < 12 && RampLow(k) <= p.ramp <= RampHigh(k) && p.integrator <= k
  }

  /** Whatever is sampled, a window between two wraps spans 6 to 12 samples. */
  lemma WindowStep(p: Pll, k: nat, sample: bool)
    requires InWindow(p, k)
    ensures
      var (q, d) := Step(p, sample);
      if d == [] then InWindow(q, k + 1) else 6 <= k + 1 <= 12 && InWindow(q, 0)
  {
  }

  /** When the loop detects bits: the numbers of the samples, the first being `t`. */
  function Dumps(p: Pll, samples: seq<bool>, t: int): seq<int>
    decreases samples
  {
    if samples == [] then [] else
    var (q, d) := Step(p, samples[0]);
    (if d == [] then [] else [t]) + Dumps(q, samples[1..], t + 1)
  }

  /** One bit is detected for each of them. */
  lemma {:induction false} OneBitEach(p: Pll, samples: seq<bool>, t: int)
    ensures |Dumps(p, samples, t)| == |Run(p, samples).1|
    decreases samples
  {
    hide Step;
    if samples != [] { OneBitEach(Step(p, samples[0]).0, samples[1..], t + 1); }
  }

  ghost predicate Spaced(times: seq<int>) {
    forall i :: 0 <= i < |times| - 1 ==> 6 <= times[i + 1] - times[i] <= 12
  }

  lemma SpacedFirst(t: int, times: seq<int>)
    requires Spaced(times) && (times != [] ==> 6 <= times[0] - t <= 12)
    ensures Spaced([t] + times)
  {
    var all := [t] + times;
    forall i | 0 <= i < |all| - 1
      ensures 6 <= all[i + 1] - all[i] <= 12
    {
      if i > 0 { assert 6 <= times[i] - times[i - 1] <= 12; }
    }
  }

  lemma {:induction false} SpacedInWindow(p: Pll, k: nat, samples: seq<bool>, t: int)
    requires InWindow(p, k)
    ensures
      var times := Dumps(p, samples, t);
      Spaced(times) && (times != [] ==> 6 <= times[0] - (t - 1 - k) <= 12)
    decreases samples
  {
    hide InWindow;
    if samples != [] {
      WindowStep(p, k, samples[0]);
      hide Step;
      var (q, d) := Step(p, samples[0]);
      if d == [] {
        SpacedInWindow(q, k + 1, samples[1..], t + 1);
        assert [] + Dumps(q, samples[1..], t + 1) == Dumps(q, samples[1..], t + 1);
      } else {
        SpacedInWindow(q, 0, samples[1..], t + 1);
        SpacedFirst(t, Dumps(q, samples[1..], t + 1));
      }
    }
  }

  /** For every sample stream and from every ramp value, any two consecutive bits are detected 6 to 12 samples apart. */
  lemma {:induction false} WindowsSpan(p: Pll, samples: seq<bool>, t: int)
    requires p.ramp < RAMP_LEN
    ensures Spaced(Dumps(p, samples, t))
    decreases samples
  {
    hide InWindow;
    if samples != [] {
      RampBounded(p, samples[0]);
      hide Step;
      var (q, d) := Step(p, samples[0]);
      if d == [] {
        WindowsSpan(q, samples[1..], t + 1);
        assert [] + Dumps(q, samples[1..], t + 1) == Dumps(q, samples[1..], t + 1);
      } else {
        SpacedInWindow(q, 0, samples[1..], t + 1);
        SpacedFirst(t, Dumps(q, samples[1..], t + 1));
      }
    }
  }

  /** The number of high samples. */
  function Highs(samples: seq<bool>): nat {
    if samples == [] then 0 else (if samples[0] then 1 else 0) + Highs(samples[1..])
  }

  lemma {:induction false} DumpsWithin(p: Pll, samples: seq<bool>, t: int, i: nat)
    requires i < |Dumps(p, samples, t)|
    ensures t <= Dumps(p, samples, t)[i] < t + |samples|
    ensures i > 0 ==> Dumps(p, samples, t)[i - 1] < Dumps(p, samples, t)[i]
    decreases samples
  {
    hide Step;
    var (q, d) := Step(p, samples[0]);
    var rest := Dumps(q, samples[1..], t + 1);
    if d == [] {
      assert Dumps(p, samples, t) == rest;
      DumpsWithin(q, samples[1..], t + 1, i);
    } else if i > 0 {
      DumpsWithin(q, samples[1..], t + 1, i - 1);
    }
  }

  lemma {:induction false} FirstMajority(p: Pll, samples: seq<bool>, t: int)
    requires Dumps(p, samples, t) != []
    ensures t <= Dumps(p, samples, t)[0] < t + |samples| && Run(p, samples).1 != []
    ensures Run(p, samples).1[0] <==> p.integrator + Highs(samples[..Dumps(p, samples, t)[0] - t + 1]) >= 5
    decreases samples
  {
    DumpsWithin(p, samples, t, 0);
    var (q, d) := Step(p, samples[0]);
    var n := Dumps(p, samples, t)[0] - t + 1;
    var head := samples[..n];
    assert head[0] == samples[0] && head[1..] == samples[1..][..n - 1];
    if d == [] {
      assert Dumps(p, samples, t) == Dumps(q, samples[1..], t + 1) && Run(p, samples).1 == Run(q, samples[1..]).1;
      FirstMajority(q, samples[1..], t + 1);
    } else {
      assert head[1..] == [];
    }
  }

  lemma EmptiedByDump(p: Pll, sample: bool)
    ensures Step(p, sample).1 != [] ==> Step(p, sample).0.integrator == 0
  {
  }

  /** A detected bit is one exactly when at least five of the samples since the bit before were high. */
  lemma {:induction false} MajorityIff(p: Pll, samples: seq<bool>, t: int, i: nat)
    requires 0 < i < |Dumps(p, samples, t)|
    ensures |Run(p, samples).1| == |Dumps(p, samples, t)|
    ensures
      var times := Dumps(p, samples, t);
      && t <= times[i - 1] < times[i] < t + |samples|
      && (Run(p, samples).1[i] <==> Highs(samples[times[i - 1] + 1 - t..times[i] + 1 - t]) >= 5)
    decreases samples
  {
    OneBitEach(p, samples, t);
    EmptiedByDump(p, samples[0]);
    DumpsWithin(p, samples, t, i);
    DumpsWithin(p, samples, t, i - 1);
    var (q, d) := Step(p, samples[0]);
    var tail, times := samples[1..], Dumps(p, samples, t);
    OneBitEach(q, tail, t + 1);
    DumpsFirst(p, samples, t);
    hide Step, Highs, Dumps, Run;
    var k := if d == [] then i else i - 1;
    SameSlice(samples, times[i - 1] - t, times[i] - t);
    if k > 0 {
      MajorityIff(q, tail, t + 1, k);
    } else {
      FirstMajority(q, tail, t + 1);
    }
  }

  lemma DumpsFirst(p: Pll, samples: seq<bool>, t: int)
    requires samples != []
    ensures
      var (q, d) := Step(p, samples[0]);
      && Run(p, samples).1 == d + Run(q, samples[1..]).1
      && Dumps(p, samples, t) == (if d == [] then [] else [t]) + Dumps(q, samples[1..], t + 1)
  {
    hide Step;
  }

  lemma SameSlice(samples: seq<bool>, a: int, b: int)
    requires 0 <= a < b < |samples|
    ensures samples[a + 1..b + 1] == samples[1..][a..b] && samples[1..][0..b] == samples[1..][..b]
  {
  }

  lemma RampBounded(p: Pll, sample: bool)
    requires p.ramp < RAMP_LEN
    ensures
      var (q, d) := Step(p, sample);
      q.ramp < RAMP_LEN && (d != [] ==> InWindow(q, 0)) && (q.ramp < RAMP_INC_RETARD ==> q.integrator == 0)
  {
  }

  lemma RampInRange(p: Pll, sample: bool)
    requires p.ramp < RAMP_LEN
    ensures Step(p, sample).0.ramp < RAMP_LEN && Step(p, sample).0.last == sample
  {
  }

  // ---------------------------------------------------------------- one bit of eight samples

  function Hold(b: bool, n: nat): (s: seq<bool>)
    ensures |s| == n
  {
    if n == 0 then [] else [b] + Hold(b, n - 1)
  }

  /** Each bit held for eight samples. */
  function Slice(bs: seq<bool>): (s: seq<bool>)
    ensures |s| == 8 * |bs|
  {
    if bs == [] then [] else Hold(bs[0], 8) + Slice(bs[1..])
  }

  /** The loop is in phase: bit boundaries fall within half a sample of the ramp's wrap,
      and the integrator holds just what the bit not yet dumped has put there. */
  predicate Locked(p: Pll) {
    || (p.ramp <= 8 && p.integrator == 0)
    || (151 <= p.ramp < 160 && (if p.last then 7 <= p.integrator <= 8 else p.integrator == 0))
  }

  /** The bit that has been sampled but not yet detected. */
  function Pending(p: Pll): seq<bool> {
    if p.ramp <= 8 then [] else [p.last]
  }

  /** Samples equal to the last one just advance the ramp. */
  lemma {:induction false} HoldRun(p: Pll, n: nat)
    requires p.ramp + 20 * n < RAMP_LEN
    ensures Run(p, Hold(p.last, n)) == (Pll(p.ramp + 20 * n, p.last, p.integrator + (if p.last then n else 0)), [])
    decreases n
  {
    if n > 0 {
      var s := Hold(p.last, n);
      assert s[0] == p.last && s[1..] == Hold(p.last, n - 1);
      var q := Pll(p.ramp + RAMP_INC, p.last, if p.last then p.integrator + 1 else p.integrator);
      assert Step(p, p.last) == (q, []);
      HoldRun(q, n - 1);
      assert [] + Run(q, s[1..]).1 == [];
    }
  }

  /** A wrap on the way when the line stays where it was. */
  lemma HoldWrap(p: Pll, k: nat, n: nat)
    requires k < n && p.ramp + 20 * k < RAMP_LEN <= p.ramp + 20 * (k + 1)
    requires p.ramp + 20 * n < 2 * RAMP_LEN
    ensures
      var i := p.integrator + (if p.last then k + 1 else 0);
      Run(p, Hold(p.last, n)) ==
        (Pll(p.ramp + 20 * n - RAMP_LEN, p.last, if p.last then n - k - 1 else 0), [i >= 5])
  {
    hide Run, Step, Hold;
    var b := p.last;
    var q := Pll(p.ramp + 20 * k, b, p.integrator + (if b then k else 0));
    HoldSplit(b, k, n - k);
    RunConcat(p, Hold(b, k), Hold(b, n - k));
    HoldRun(p, k);
    WrapFirst(q, n - k);
    HoldRun(Pll(q.ramp + 20 - RAMP_LEN, b, 0), n - k - 1);
    var i := if b then q.integrator + 1 else q.integrator;
    assert [] + [i >= 5] == [i >= 5];
  }

  lemma WrapFirst(q: Pll, n: nat)
    requires n > 0 && q.ramp < RAMP_LEN <= q.ramp + 20
    requires q.ramp + 20 * n < 2 * RAMP_LEN
    ensures
      var i := if q.last then q.integrator + 1 else q.integrator;
      Run(q, Hold(q.last, n)) == (Run(Pll(q.ramp + 20 - RAMP_LEN, q.last, 0), Hold(q.last, n - 1)).0, [i >= 5])
  {
    var w := Pll(q.ramp + 20 - RAMP_LEN, q.last, 0);
    HoldRun(w, n - 1);
    assert Hold(q.last, n)[0] == q.last && Hold(q.last, n)[1..] == Hold(q.last, n - 1);
    var i := if q.last then q.integrator + 1 else q.integrator;
    assert Step(q, q.last) == (w, [i >= 5]);
    assert [i >= 5] + [] == [i >= 5];
  }

  lemma {:induction false} HoldSplit(b: bool, m: nat, n: nat)
    ensures Hold(b, m + n) == Hold(b, m) + Hold(b, n)
  {
    if m > 0 { HoldSplit(b, m - 1, n); }
  }

  /** The state after the first sample of a bit, and what that sample dumps. */
  lemma FirstSample(p: Pll, b: bool)
    requires p.ramp < RAMP_LEN
    ensures
      var (q, d) := Step(p, b);
      var (r, e) := Run(q, Hold(b, 7));
      q.last == b && Run(p, Hold(b, 8)) == (r, d + e)
  {
    assert Hold(b, 8)[1..] == Hold(b, 7);
  }

  /** In lock, a bit held for eight samples leaves the loop in lock, and each bit is detected once, with its value. */
  lemma BitInLock(p: Pll, b: bool)
    requires Locked(p)
    ensures
      var (q, d) := Run(p, Hold(b, 8));
      Locked(q) && q.last == b && Pending(p) + [b] == d + Pending(q)
  {
    FirstSample(p, b);
    var (q, d) := Step(p, b);
    if q.ramp + 20 * 7 < RAMP_LEN {
      HoldRun(q, 7);
    } else {
      HoldWrap(q, 6, 7);
    }
  }

  /** In lock, a run over any bit sequence detects every bit exactly once, in order, with its value. */
  lemma {:induction false} LockedRun(p: Pll, bs: seq<bool>)
    requires Locked(p)
    ensures
      var (q, d) := Run(p, Slice(bs));
      Locked(q) && Pending(p) + bs == d + Pending(q)
    decreases bs
  {
    hide Step, Hold, Locked, Pending, Run;
    if bs == [] {
      EmptyRun(p);
      assert Pending(p) + [] == [] + Pending(p);
    } else {
      var (q, d) := Run(p, Hold(bs[0], 8));
      BitInLock(p, bs[0]);
      LockedRun(q, bs[1..]);
      RunConcat(p, Hold(bs[0], 8), Slice(bs[1..]));
      var (r, e) := Run(q, Slice(bs[1..]));
      assert bs == [bs[0]] + bs[1..];
      Chain(Pending(p), [bs[0]], bs[1..], d, e, Pending(q), Pending(r));
    }
  }

  lemma Chain(p: seq<bool>, b: seq<bool>, bs: seq<bool>, d: seq<bool>, e: seq<bool>, q: seq<bool>, r: seq<bool>)
    requires p + b == d + q && q + bs == e + r
    ensures p + (b + bs) == (d + e) + r
  {
    calc {
      p + (b + bs);
      (p + b) + bs;
      d + (q + bs);
      d + (e + r);
      (d + e) + r;
    }
  }

  // ---------------------------------------------------------------- acquisition

  /** How many transitions, at eight samples per bit, the loop still needs. */
  function ToLock(ramp: nat): nat
    requires ramp < RAMP_LEN
  {
    if ramp < RAMP_TRANSITION then ramp / 9 else (159 - ramp) / 9
  }

  /** The transitions until the loop is in lock, integrator included. */
  function Needed(p: Pll): (n: nat)
    requires p.ramp < RAMP_LEN
    ensures n <= 8
  {
    if p.ramp <= 8 && p.integrator != 0 then 2
    else if ToLock(p.ramp) == 0 then 1
    else ToLock(p.ramp)
  }

  /** Every bit differs from the one before it, and the first from `last`. */
  predicate Alternates(last: bool, bs: seq<bool>)
    decreases bs
  {
    bs == [] || (bs[0] != last && Alternates(bs[0], bs[1..]))
  }

  /** The rest of a bit after its first sample: at most one more wrap. */
  lemma RestOfBit(p: Pll)
    requires p.ramp < RAMP_LEN
    ensures
      var (q, d) := Run(p, Hold(p.last, 7));
      q.last == p.last
      && if p.ramp < 20 then q.ramp == p.ramp + 140 && q.integrator == p.integrator + (if p.last then 7 else 0)
         else q.ramp == p.ramp - 20 && (p.ramp < 40 ==> q.integrator == 0)
  {
    if p.ramp < 20 {
      HoldRun(p, 7);
    } else {
      HoldWrap(p, (159 - p.ramp) / 20, 7);
    }
  }

  /** One transition moves the ramp by nine towards the wrap. */
  lemma TransitionBit(p: Pll, b: bool)
    requires p.ramp < RAMP_LEN && b != p.last
    ensures
      var q := Run(p, Hold(b, 8)).0;
      && q.last == b && q.ramp < RAMP_LEN
      && q.ramp == (if p.ramp < RAMP_TRANSITION then p.ramp + 151 else p.ramp + 9) % RAMP_LEN
      && (q.ramp <= 8 ==> q.integrator == 0)
      && (ToLock(p.ramp) <= 1 && (p.ramp <= 8 ==> p.integrator == 0) ==> Locked(q))
  {
    FirstSample(p, b);
    RestOfBit(Step(p, b).0);
  }

  lemma {:induction false} StaysLocked(p: Pll, bs: seq<bool>)
    requires Locked(p)
    ensures Locked(Run(p, Slice(bs)).0)
  {
    hide Run, Locked, Slice;
    LockedRun(p, bs);
  }

  /** A transition next to lock enters it; any other comes one transition nearer. */
  lemma NearerLock(p: Pll, b: bool)
    requires p.ramp < RAMP_LEN && b != p.last
    ensures
      var q := Run(p, Hold(b, 8)).0;
      q.ramp < RAMP_LEN && q.last == b && (Locked(q) || (Needed(p) > 1 && Needed(q) <= Needed(p) - 1))
  {
    TransitionBit(p, b);
    RampNearer(p.ramp);
    hide Run, Hold, Locked, ToLock;
  }

  lemma RampNearer(ramp: nat)
    requires ramp < RAMP_LEN
    ensures
      var next := (if ramp < RAMP_TRANSITION then ramp + 151 else ramp + 9) % RAMP_LEN;
      && (ToLock(ramp) >= 2 ==> ToLock(next) <= ToLock(ramp) - 1)
      && (ramp <= 8 ==> ToLock(ramp) == 0 && next > 8 && ToLock(next) == 0)
  {
  }

  /** Each transition brings the loop one step nearer to lock, and a loop next to lock enters it. */
  lemma {:induction false} Acquire(p: Pll, bs: seq<bool>)
    requires p.ramp < RAMP_LEN && Alternates(p.last, bs)
    ensures
      var q := Run(p, Slice(bs)).0;
      && q.ramp < RAMP_LEN
      && (|bs| >= Needed(p) ==> Locked(q))
    decreases bs
  {
    hide Run, Hold, Locked, Needed;
    if bs == [] {
      EmptyRun(p);
      NeedsOne(p);
    } else {
      var q := Run(p, Hold(bs[0], 8)).0;
      NearerLock(p, bs[0]);
      RunConcat(p, Hold(bs[0], 8), Slice(bs[1..]));
      Acquire(q, bs[1..]);
      if Locked(q) { StaysLocked(q, bs[1..]); }
    }
  }

  lemma NeedsOne(p: Pll)
    requires p.ramp < RAMP_LEN
    ensures Needed(p) >= 1
  {
  }

  lemma EmptyRun(p: Pll)
    ensures Run(p, []) == (p, [])
  {
  }

  // ---------------------------------------------------------------- acquisition after silence

  /** No two detected ones in a row, nor one after `v`. */
  predicate NoPair(v: bool, d: seq<bool>)
    decreases d
  {
    d == [] || (!(v && d[0]) && NoPair(d[0], d[1..]))
  }

  function LastOf(v: bool, d: seq<bool>): bool { if d == [] then v else d[|d| - 1] }

  lemma {:induction false} NoPairConcat(v: bool, d: seq<bool>, e: seq<bool>)
    requires NoPair(v, d) && NoPair(LastOf(v, d), e)
    ensures NoPair(v, d + e)
    decreases d
  {
    if d == [] {
      assert d + e == e;
    } else {
      assert (d + e)[1..] == d[1..] + e;
      NoPairConcat(d[0], d[1..], e);
    }
  }

  /** Between bits that alternate, with `v` detected last: what keeps ones apart on the way to lock. */
  predicate Calm(p: Pll, v: bool) {
    && p.ramp < RAMP_LEN
    && if p.last then (v ==> p.ramp < 80) && (p.ramp < 80 ==> p.integrator <= 3) && (p.ramp <= 8 ==> p.integrator == 0)
       else p.integrator == 0 && (v ==> p.ramp >= 80)
  }

  /** The rest of a bit after its first sample, with what is detected in it. */
  function Rest(p: Pll): (Pll, seq<bool>)
    requires p.ramp < RAMP_LEN
  {
    if p.ramp < 20 then (Pll(p.ramp + 140, p.last, p.integrator + (if p.last then 7 else 0)), [])
    else
      var k: nat := (159 - p.ramp) / 20;
      (Pll(p.ramp - 20, p.last, if p.last then 6 - k else 0), [p.integrator + (if p.last then k + 1 else 0) >= 5])
  }

  lemma RestDetects(p: Pll, n: nat)
    requires p.ramp < RAMP_LEN && n == 7
    ensures Run(p, Hold(p.last, n)) == Rest(p)
  {
    hide Run, Step, Hold;
    if p.ramp < 20 {
      HoldRun(p, n);
    } else {
      HoldWrap(p, (159 - p.ramp) / 20, n);
    }
  }

  lemma OneOrTwo(v: bool, d: seq<bool>, e: seq<bool>)
    requires |d| <= 1 && |e| <= 1
    ensures NoPair(v, d + e) == (!(v && d + e != [] && (d + e)[0]) && !(d == [true] && e == [true]))
  {
    assert d != [] ==> d[1..] == [];
    assert e != [] ==> e[1..] == [];
    if d == [] {
      assert d + e == e;
    } else if e == [] {
      assert d + e == d;
    } else {
      assert d == [d[0]] && e == [e[0]];
      assert (d + e)[1..] == e;
      assert NoPair(e[0], e[1..]);
      assert NoPair(d[0], e) == !(d[0] && e[0]);
    }
  }

  lemma CalmBit(p: Pll, v: bool, b: bool)
    requires Calm(p, v) && b != p.last
    ensures
      var (q, d) := Run(p, Hold(b, 8));
      Calm(q, LastOf(v, d)) && NoPair(v, d) && q.last == b
  {
    FirstSample(p, b);
    RestDetects(Step(p, b).0, 7);
    hide Run, Hold;
    OneOrTwo(v, Step(p, b).1, Run(Step(p, b).0, Hold(b, 7)).1);
  }

  lemma {:induction false} CalmRun(p: Pll, v: bool, bs: seq<bool>)
    requires Calm(p, v) && Alternates(p.last, bs)
    ensures NoPair(v, Run(p, Slice(bs)).1)
    decreases bs
  {
    hide Run, Hold, Calm;
    if bs == [] {
      assert Slice(bs) == [];
      EmptyRun(p);
    } else {
      var (q, d) := Run(p, Hold(bs[0], 8));
      CalmBit(p, v, bs[0]);
      CalmRun(q, LastOf(v, d), bs[1..]);
      RunConcat(p, Hold(bs[0], 8), Slice(bs[1..]));
      var e := Run(q, Slice(bs[1..])).1;
      NoPairConcat(v, d, e);
      assert Run(p, Slice(bs)).1 == d + e;
    }
  }

  /** On a quiet line every eight samples detect one zero and leave the loop as it was. */
  lemma QuietBit(p: Pll)
    requires p.ramp < RAMP_LEN && !p.last && p.integrator == 0
    ensures Run(p, Hold(false, 8)) == (p, [false])
  {
    hide Run, Step, Hold;
    HoldWrap(p, (159 - p.ramp) / 20, 8);
  }

  /** From a quiet line, alternating bits never make the loop detect two ones in a row, whatever its phase. */
  lemma TrainingAfterSilence(p: Pll, bs: seq<bool>)
    requires p.ramp < RAMP_LEN && !p.last && p.integrator == 0 && Alternates(true, bs)
    ensures NoPair(false, Run(p, Slice(bs)).1)
  {
    if bs == [] {
      EmptyRun(p);
    } else {
      QuietBit(p);
      CalmRun(p, false, bs[1..]);
      RunConcat(p, Hold(bs[0], 8), Slice(bs[1..]));
      hide Run, Hold, Calm;
      NoPairConcat(false, [false], Run(p, Slice(bs[1..])).1);
    }
  }

  /** Nothing but zeros after the first bit. */
  predicate ZerosAfterFirst(d: seq<bool>) { forall i :: 1 <= i < |d| ==> !d[i] }

  /** Two bit times of a quiet line empty the integrator, and at most the first bit detected in them is a one. */
  lemma QuietSettles(p: Pll)
    requires p.ramp < RAMP_LEN
    ensures
      var (q, d) := Run(p, Hold(false, 8) + Hold(false, 8));
      q.ramp < RAMP_LEN && !q.last && q.integrator == 0 && ZerosAfterFirst(d)
  {
    hide Run, Hold, Step;
    RunConcat(p, Hold(false, 8), Hold(false, 8));
    FirstQuietBit(p);
    SecondQuietBit(Run(p, Hold(false, 8)).0);
  }

  lemma FirstQuietBit(p: Pll)
    requires p.ramp < RAMP_LEN
    ensures
      var (q, d) := Run(p, Hold(false, 8));
      q.ramp < RAMP_LEN && !q.last && ZerosAfterFirst(d) && (d != [] ==> q.integrator == 0)
  {
    FirstSample(p, false);
    RestDetects(Step(p, false).0, 7);
    hide Run, Hold;
    FirstOfTwo(Step(p, false).1, Run(Step(p, false).0, Hold(false, 7)).1);
    hide ZerosAfterFirst;
  }

  lemma FirstOfTwo(d: seq<bool>, e: seq<bool>)
    requires |d| <= 1 && |e| <= 1
    ensures ZerosAfterFirst(d + e) == (d == [] || e == [] || !e[0])
  {
    assert d != [] && e != [] ==> (d + e)[1] == e[0];
  }

  /** On a quiet line eight samples detect one bit and empty the integrator. */
  lemma SecondQuietBit(p: Pll)
    requires p.ramp < RAMP_LEN && !p.last
    ensures Run(p, Hold(false, 8)) == (Pll(p.ramp, false, 0), [p.integrator >= 5])
  {
    hide Run, Step, Hold;
    HoldWrap(p, (159 - p.ramp) / 20, 8);
  }
}
