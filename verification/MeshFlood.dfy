/** Route discovery of the mesh layer: the flood of requests, and the routes installed from them. */
module MeshFlood {
  import opened RouteTable

  /** Who hears whom. */
  type Radio = nat -> seq<nat>

  /** A discovery request as broadcast by `from`, with the nodes that have passed it on so far. */
  datatype Request = Request(source: nat, dest: nat, visited: seq<nat>, from: nat)

  /** A request on its way to one of those who hear the sender. */
  datatype Copy = Copy(to: nat, req: Request)

  type Table = t: seq<Entry> | t != [] witness [Entry(0, 0, Invalid)]

  datatype Mesh = Mesh(table: nat -> Table, air: seq<Copy>)

  /** `maxHops` limits the visited list; `room` is how long it may be within the driver's message length. */
  datatype Limits = Limits(maxHops: nat, room: nat)

  // ---------------------------------------------------------------- one node

  /** Routes to several destinations over one neighbour. */
  function AddAll(t: Table, dests: seq<nat>, next: nat): (r: Table)
    ensures |r| == |t|
    decreases dests
  {
    if dests == [] then t else AddAll(Add(t, Entry(dests[0], next, Valid)), dests[1..], next)
  }

  datatype Reaction = Ignore | Respond | Rebroadcast(req: Request)

  function React(u: nat, limits: Limits, r: Request): Reaction {
    if r.source == u || u in r.visited then Ignore
    else if r.dest == u then Respond
    else if |r.visited| < limits.maxHops && |r.visited| < limits.room then
      Rebroadcast(Request(r.source, r.dest, r.visited + [u], u))
    else Ignore
  }

  /** A request not seen before leaves routes back to everyone it has passed. */
  function Learn(t: Table, u: nat, r: Request): (t': Table)
    ensures |t'| == |t|
  {
    if r.source == u || u in r.visited then t else AddAll(t, [r.source] + r.visited, r.from)
  }

  // ---------------------------------------------------------------- the network

  datatype Event = Discover(source: nat, dest: nat) | Handle(i: nat) | Lose(i: nat)

  function Broadcast(radio: Radio, r: Request): (c: seq<Copy>)
    ensures |c| == |radio(r.from)| && forall i :: 0 <= i < |c| ==> c[i] == Copy(radio(r.from)[i], r)
  {
    seq(|radio(r.from)|, i requires 0 <= i < |radio(r.from)| => Copy(radio(r.from)[i], r))
  }

  predicate Enabled(m: Mesh, e: Event) { e.Discover? || e.i < |m.air| }

  function Without(s: seq<Copy>, i: nat): seq<Copy>
    requires i < |s|
  {
    s[..i] + s[i + 1..]
  }

  function Next(radio: Radio, limits: Limits, m: Mesh, e: Event): Mesh
    requires Enabled(m, e)
  {
    match e
    case Discover(source, dest) => m.(air := m.air + Broadcast(radio, Request(source, dest, [], source)))
    case Lose(i) => m.(air := Without(m.air, i))
    case Handle(i) =>
      var c := m.air[i];
      var learnt := Learn(m.table(c.to), c.to, c.req);
      var reaction := React(c.to, limits, c.req);
      var more := if reaction.Rebroadcast? then Broadcast(radio, reaction.req) else [];
      Mesh((u: nat) => if u == c.to then learnt else m.table(u), Without(m.air, i) + more)
  }

  // ---------------------------------------------------------------- simple paths

  ghost predicate Symmetric(radio: Radio) { forall u: nat, v: nat :: v in radio(u) <==> u in radio(v) }

  ghost predicate Distinct(p: seq<nat>) { forall i, j :: 0 <= i < j < |p| ==> p[i] != p[j] }

  ghost predicate Linked(radio: Radio, p: seq<nat>) { forall i :: 0 <= i < |p| - 1 ==> p[i + 1] in radio(p[i]) }

  ghost predicate SimplePath(radio: Radio, p: seq<nat>) { p != [] && Distinct(p) && Linked(radio, p) }

  function Reverse(p: seq<nat>): (r: seq<nat>)
    ensures |r| == |p| && forall i :: 0 <= i < |p| ==> r[i] == p[|p| - 1 - i]
  {
    seq(|p|, i requires 0 <= i < |p| => p[|p| - 1 - i])
  }

  lemma ReversePath(radio: Radio, p: seq<nat>)
    requires Symmetric(radio) && SimplePath(radio, p)
    ensures SimplePath(radio, Reverse(p))
  {
    var r := Reverse(p);
    forall i | 0 <= i < |r| - 1
      ensures r[i + 1] in radio(r[i])
    {
      var k := |p| - 2 - i;
      assert p[k + 1] in radio(p[k]);
    }
  }

  /** A next hop `u` can use towards `dest`: a neighbour from which a simple path avoiding `u` leads there. */
  ghost predicate Sound(radio: Radio, u: nat, dest: nat, next: nat) {
    next in radio(u) && exists p :: SimplePath(radio, p) && p[0] == next && p[|p| - 1] == dest && u !in p
  }

  // ---------------------------------------------------------------- what every run keeps

  /** The way a request has come: a simple path of links from its source to its sender, which does not
      pass the destination on the way and is within the hop limit. */
  ghost predicate RequestOk(radio: Radio, limits: Limits, c: Copy) {
    var r, way := c.req, [c.req.source] + c.req.visited;
    && SimplePath(radio, way) && r.from == way[|way| - 1] && c.to in radio(r.from)
    && r.dest !in r.visited && |r.visited| <= limits.maxHops && |r.visited| <= limits.room
  }

  ghost predicate TableSound(radio: Radio, u: nat, t: Table) {
    forall i :: 0 <= i < |t| && t[i].state != Invalid ==> Sound(radio, u, t[i].dest, t[i].nextHop)
  }

  ghost predicate Inv(radio: Radio, limits: Limits, m: Mesh) {
    && (forall i :: 0 <= i < |m.air| ==> RequestOk(radio, limits, m.air[i]))
    && (forall u: nat :: TableSound(radio, u, m.table(u)))
  }

  lemma AddSound(radio: Radio, u: nat, t: Table, e: Entry)
    requires TableSound(radio, u, t) && Sound(radio, u, e.dest, e.nextHop)
    ensures TableSound(radio, u, Add(t, e))
  {
    hide Sound, FindDest, FindInvalid;
  }

  lemma {:induction false} AddAllSound(radio: Radio, u: nat, t: Table, dests: seq<nat>, next: nat)
    requires TableSound(radio, u, t) && forall i :: 0 <= i < |dests| ==> Sound(radio, u, dests[i], next)
    ensures TableSound(radio, u, AddAll(t, dests, next))
    decreases dests
  {
    hide Sound, Add;
    if dests != [] {
      assert Sound(radio, u, dests[0], next);
      AddSound(radio, u, t, Entry(dests[0], next, Valid));
      AddAllSound(radio, u, Add(t, Entry(dests[0], next, Valid)), dests[1..], next);
    }
  }

  lemma SuffixPath(radio: Radio, way: seq<nat>, k: nat)
    requires SimplePath(radio, way) && k < |way|
    ensures SimplePath(radio, way[k..])
  {
    var q := way[k..];
    forall i | 0 <= i < |q| - 1
      ensures q[i + 1] in radio(q[i])
    {
      assert way[k + i + 1] in radio(way[k + i]);
    }
  }

  /** A path that has come to a neighbour of `u` without passing `u` is a way for `u` to go back along. */
  lemma BackAlong(radio: Radio, u: nat, way: seq<nat>, k: nat)
    requires Symmetric(radio) && SimplePath(radio, way) && u !in way && u in radio(way[|way| - 1]) && k < |way|
    ensures Sound(radio, u, way[k], way[|way| - 1])
  {
    SuffixPath(radio, way, k);
    ReversePath(radio, way[k..]);
    hide SimplePath;
    var p := Reverse(way[k..]);
    assert p[0] == way[|way| - 1] && p[|p| - 1] == way[k];
    assert u !in p by {
      forall i | 0 <= i < |p|
        ensures p[i] != u
      {
        assert p[i] == way[|way| - 1 - i];
      }
    }
  }

  /** Every node a request has passed can be reached back over its sender. */
  lemma WayBack(radio: Radio, limits: Limits, c: Copy, k: nat)
    requires Symmetric(radio) && RequestOk(radio, limits, c) && c.to != c.req.source && c.to !in c.req.visited
    requires k <= |c.req.visited|
    ensures Sound(radio, c.to, ([c.req.source] + c.req.visited)[k], c.req.from)
  {
    hide Sound, SimplePath, Symmetric;
    BackAlong(radio, c.to, [c.req.source] + c.req.visited, k);
  }

  lemma LearnSound(radio: Radio, limits: Limits, c: Copy, t: Table)
    requires Symmetric(radio) && RequestOk(radio, limits, c) && TableSound(radio, c.to, t)
    ensures TableSound(radio, c.to, Learn(t, c.to, c.req))
  {
    hide Sound, RequestOk;
    var r := c.req;
    if !(r.source == c.to || c.to in r.visited) {
      var dests := [r.source] + r.visited;
      forall i | 0 <= i < |dests|
        ensures Sound(radio, c.to, dests[i], r.from)
      {
        WayBack(radio, limits, c, i);
      }
      AddAllSound(radio, c.to, t, dests, r.from);
    }
  }

  /** A request that is passed on has come one link further. */
  lemma RebroadcastOk(radio: Radio, limits: Limits, c: Copy, to: nat)
    requires RequestOk(radio, limits, c) && React(c.to, limits, c.req).Rebroadcast? && to in radio(c.to)
    ensures RequestOk(radio, limits, Copy(to, React(c.to, limits, c.req).req))
  {
    var r := React(c.to, limits, c.req).req;
    var before, way := [c.req.source] + c.req.visited, [r.source] + r.visited;
    assert way == before + [c.to];
  }

  /** Every step keeps in-flight requests on simple paths and routing tables sound. */
  lemma NextKeeps(radio: Radio, limits: Limits, m: Mesh, e: Event)
    requires Symmetric(radio) && Inv(radio, limits, m) && Enabled(m, e)
    ensures Inv(radio, limits, Next(radio, limits, m, e))
  {
    hide RequestOk, TableSound, Learn, React;
    match e
    case Discover(source, dest) =>
      FirstOk(radio, limits, source, dest);
    case Lose(i) =>
    case Handle(i) =>
      var c := m.air[i];
      assert RequestOk(radio, limits, c) && TableSound(radio, c.to, m.table(c.to));
      LearnSound(radio, limits, c, m.table(c.to));
      if React(c.to, limits, c.req).Rebroadcast? {
        var r := React(c.to, limits, c.req).req;
        RebroadcastFrom(c, limits);
        forall j | 0 <= j < |Broadcast(radio, r)|
          ensures RequestOk(radio, limits, Broadcast(radio, r)[j])
        {
          RebroadcastOk(radio, limits, c, radio(r.from)[j]);
        }
      }
  }

  lemma RebroadcastFrom(c: Copy, limits: Limits)
    requires React(c.to, limits, c.req).Rebroadcast?
    ensures React(c.to, limits, c.req).req.from == c.to
  {
  }

  lemma FirstOk(radio: Radio, limits: Limits, source: nat, dest: nat)
    ensures forall j :: 0 <= j < |radio(source)| ==>
      RequestOk(radio, limits, Copy(radio(source)[j], Request(source, dest, [], source)))
  {
  }

  // ---------------------------------------------------------------- runs

  ghost predicate Runs(radio: Radio, limits: Limits, m: Mesh, run: seq<Event>)
    decreases run
  {
    run == [] || (Enabled(m, run[0]) && Runs(radio, limits, Next(radio, limits, m, run[0]), run[1..]))
  }

  ghost function After(radio: Radio, limits: Limits, m: Mesh, run: seq<Event>): Mesh
    requires Runs(radio, limits, m, run)
    decreases run
  {
    if run == [] then m else After(radio, limits, Next(radio, limits, m, run[0]), run[1..])
  }

  lemma {:induction false} RunKeeps(radio: Radio, limits: Limits, m: Mesh, run: seq<Event>)
    requires Symmetric(radio) && Inv(radio, limits, m) && Runs(radio, limits, m, run)
    ensures Inv(radio, limits, After(radio, limits, m, run))
    decreases run
  {
    hide Inv, Next, Symmetric;
    if run != [] {
      NextKeeps(radio, limits, m, run[0]);
      RunKeeps(radio, limits, Next(radio, limits, m, run[0]), run[1..]);
    }
  }

  /** Whatever is sent, lost, delayed or overtaken: from empty routing tables, every request in flight has come
      along a simple path, and every route leads to a neighbour that has a simple path to its destination. */
  lemma FloodSound(radio: Radio, limits: Limits, m: Mesh, run: seq<Event>)
    requires Symmetric(radio) && Runs(radio, limits, m, run) && m.air == []
    requires forall u: nat, i: nat :: i < |m.table(u)| ==> m.table(u)[i].state == Invalid
    ensures
      var n := After(radio, limits, m, run);
      && (forall i :: 0 <= i < |n.air| ==> RequestOk(radio, limits, n.air[i]))
      && (forall u: nat, i: nat :: i < |n.table(u)| && n.table(u)[i].state != Invalid ==>
            Sound(radio, u, n.table(u)[i].dest, n.table(u)[i].nextHop))
  {
    hide RequestOk, Sound, Next, Symmetric;
    RunKeeps(radio, limits, m, run);
    var n := After(radio, limits, m, run);
    forall u: nat, i: nat | i < |n.table(u)| && n.table(u)[i].state != Invalid
      ensures Sound(radio, u, n.table(u)[i].dest, n.table(u)[i].nextHop)
    {
      assert TableSound(radio, u, n.table(u));
    }
  }

  // ---------------------------------------------------------------- the flood dies out

  ghost predicate DegreeAtMost(radio: Radio, degree: nat) { forall u: nat :: |radio(u)| <= degree }

  /** How many receptions a request with `k` visited nodes can still cause. */
  function Weight(degree: nat, maxHops: nat, k: nat): nat
    decreases maxHops - k
  {
    if k >= maxHops then 1 else 1 + degree * Weight(degree, maxHops, k + 1)
  }

  function Load(degree: nat, maxHops: nat, air: seq<Copy>): nat {
    if air == [] then 0 else Weight(degree, maxHops, |air[0].req.visited|) + Load(degree, maxHops, air[1..])
  }

  lemma {:induction false} LoadConcat(degree: nat, maxHops: nat, a: seq<Copy>, b: seq<Copy>)
    ensures Load(degree, maxHops, a + b) == Load(degree, maxHops, a) + Load(degree, maxHops, b)
    decreases a
  {
    if a == [] {
      assert a + b == b;
    } else {
      assert (a + b)[1..] == a[1..] + b;
      LoadConcat(degree, maxHops, a[1..], b);
    }
  }

  lemma LoadWithout(degree: nat, maxHops: nat, a: seq<Copy>, i: nat)
    requires i < |a|
    ensures Load(degree, maxHops, Without(a, i)) ==
      Load(degree, maxHops, a) - Weight(degree, maxHops, |a[i].req.visited|)
  {
    hide Weight;
    LoadConcat(degree, maxHops, a[..i], a[i..]);
    LoadConcat(degree, maxHops, a[..i], a[i + 1..]);
    assert a == a[..i] + a[i..] && a[i..][1..] == a[i + 1..];
  }

  lemma {:induction false} LoadAlike(degree: nat, maxHops: nat, a: seq<Copy>, k: nat)
    requires forall i :: 0 <= i < |a| ==> |a[i].req.visited| == k
    ensures Load(degree, maxHops, a) == |a| * Weight(degree, maxHops, k)
    decreases a
  {
    hide Weight;
    if a != [] { LoadAlike(degree, maxHops, a[1..], k); }
  }

  lemma BroadcastLoad(radio: Radio, degree: nat, maxHops: nat, r: Request)
    requires DegreeAtMost(radio, degree)
    ensures Load(degree, maxHops, Broadcast(radio, r)) <= degree * Weight(degree, maxHops, |r.visited|)
  {
    LoadAlike(degree, maxHops, Broadcast(radio, r), |r.visited|);
    Scaled(|radio(r.from)|, degree, Weight(degree, maxHops, |r.visited|));
  }

  lemma Scaled(a: nat, b: nat, w: nat)
    requires a <= b
    ensures a * w <= b * w
  {
  }

  ghost function Discoveries(run: seq<Event>): nat {
    if run == [] then 0 else (if run[0].Discover? then 1 else 0) + Discoveries(run[1..])
  }

  lemma RebroadcastLighter(radio: Radio, limits: Limits, degree: nat, c: Copy)
    requires DegreeAtMost(radio, degree) && React(c.to, limits, c.req).Rebroadcast?
    ensures
      var more := Broadcast(radio, React(c.to, limits, c.req).req);
      1 + Load(degree, limits.maxHops, more) <= Weight(degree, limits.maxHops, |c.req.visited|)
  {
    hide Broadcast, Load;
    BroadcastLoad(radio, degree, limits.maxHops, React(c.to, limits, c.req).req);
  }

  lemma StepLightens(radio: Radio, limits: Limits, degree: nat, m: Mesh, e: Event)
    requires Enabled(m, e) && DegreeAtMost(radio, degree)
    ensures
      var d := if e.Discover? then 1 + degree * Weight(degree, limits.maxHops, 0) else 0;
      1 + Load(degree, limits.maxHops, Next(radio, limits, m, e).air) <= Load(degree, limits.maxHops, m.air) + d
  {
    var h := limits.maxHops;
    match e
    case Discover(source, dest) =>
      var r := Request(source, dest, [], source);
      BroadcastLoad(radio, degree, h, r);
      LoadConcat(degree, h, m.air, Broadcast(radio, r));
      hide Load, Broadcast, Weight;
    case Lose(i) =>
      LoadWithout(degree, h, m.air, i);
      LeastWeight(degree, h, |m.air[i].req.visited|);
      hide Load, Without, Weight;
    case Handle(i) =>
      var c := m.air[i];
      LoadWithout(degree, h, m.air, i);
      LeastWeight(degree, h, |c.req.visited|);
      assert Without(m.air, i) + [] == Without(m.air, i);
      if React(c.to, limits, c.req).Rebroadcast? {
        RebroadcastLighter(radio, limits, degree, c);
        LoadConcat(degree, h, Without(m.air, i), Broadcast(radio, React(c.to, limits, c.req).req));
      }
      hide Load, Without, Weight, Broadcast, React, Learn;
  }

  lemma LeastWeight(degree: nat, maxHops: nat, k: nat)
    ensures 1 <= Weight(degree, maxHops, k)
  {
  }

  /** Every run is bounded by what is in flight and the number of discoveries in it: each discovery causes
      only finitely many receptions, at most one per path of `maxHops` relays. */
  lemma {:induction false} FloodEnds(radio: Radio, limits: Limits, degree: nat, m: Mesh, run: seq<Event>)
    requires Runs(radio, limits, m, run) && DegreeAtMost(radio, degree)
    ensures
      |run| + Load(degree, limits.maxHops, After(radio, limits, m, run).air) <=
        Load(degree, limits.maxHops, m.air) + Discoveries(run) * (1 + degree * Weight(degree, limits.maxHops, 0))
    decreases run
  {
    hide Next, Weight, Load, DegreeAtMost;
    if run != [] {
      StepLightens(radio, limits, degree, m, run[0]);
      FloodEnds(radio, limits, degree, Next(radio, limits, m, run[0]), run[1..]);
    }
  }

  // ---------------------------------------------------------------- the flood gets everywhere

  /** A way the flood can take: a simple path with no more relays than the limits allow. */
  ghost predicate Way(radio: Radio, limits: Limits, p: seq<nat>) {
    SimplePath(radio, p) && 2 <= |p| <= limits.maxHops + 2 && |p| <= limits.room + 2
  }

  /** The request that has come `k` links along `p` and is about to go the next one. */
  function OnWay(p: seq<nat>, k: nat): Copy
    requires k + 1 < |p|
  {
    Copy(p[k + 1], Request(p[0], p[|p| - 1], p[1..k + 1], p[k]))
  }

  ghost predicate Pending(air: seq<Copy>, p: seq<nat>) {
    exists k: nat :: k + 1 < |p| && OnWay(p, k) in air
  }

  lemma ReactOnWay(radio: Radio, limits: Limits, p: seq<nat>, k: nat)
    requires Way(radio, limits, p) && k + 1 < |p|
    ensures
      var c := OnWay(p, k);
      React(c.to, limits, c.req) ==
        if k + 2 == |p| then Respond else Rebroadcast(Request(p[0], p[|p| - 1], p[1..k + 2], p[k + 1]))
  {
    var c := OnWay(p, k);
    assert c.to !in c.req.visited by {
      forall j | 0 <= j < |c.req.visited|
        ensures c.req.visited[j] != c.to
      {
        assert c.req.visited[j] == p[1 + j];
      }
    }
    if k + 2 < |p| { assert p[1..k + 1] + [p[k + 1]] == p[1..k + 2]; }
  }

  lemma BroadcastHas(radio: Radio, r: Request, to: nat)
    requires to in radio(r.from)
    ensures Copy(to, r) in Broadcast(radio, r)
  {
    var i :| 0 <= i < |radio(r.from)| && radio(r.from)[i] == to;
    assert Broadcast(radio, r)[i] == Copy(to, r);
  }

  lemma StaysWithout(air: seq<Copy>, i: nat, c: Copy)
    requires i < |air| && c in air && c != air[i]
    ensures c in Without(air, i)
  {
    var j :| 0 <= j < |air| && air[j] == c;
    assert Without(air, i)[if j < i then j else j - 1] == c;
  }

  /** Nothing but a loss stops a request from going on along a way, until it is handled at the end. */
  lemma StepAlong(radio: Radio, limits: Limits, m: Mesh, e: Event, p: seq<nat>, k: nat)
    requires Way(radio, limits, p) && Enabled(m, e) && !e.Lose? && k + 1 < |p| && OnWay(p, k) in m.air
    ensures (e.Handle? && m.air[e.i] == OnWay(p, |p| - 2)) || Pending(Next(radio, limits, m, e).air, p)
  {
    hide React, OnWay, Broadcast, Learn;
    var next := Next(radio, limits, m, e).air;
    if e.Discover? {
      assert OnWay(p, k) in next;
    } else if m.air[e.i] != OnWay(p, k) {
      StaysWithout(m.air, e.i, OnWay(p, k));
      assert OnWay(p, k) in next;
    } else if k + 2 < |p| {
      ReactOnWay(radio, limits, p, k);
      NextOnWay(radio, limits, p, k);
      assert OnWay(p, k + 1) in next;
    }
  }

  lemma NextOnWay(radio: Radio, limits: Limits, p: seq<nat>, k: nat)
    requires Way(radio, limits, p) && k + 2 < |p|
    ensures OnWay(p, k + 1) in Broadcast(radio, Request(p[0], p[|p| - 1], p[1..k + 2], p[k + 1]))
  {
    BroadcastHas(radio, Request(p[0], p[|p| - 1], p[1..k + 2], p[k + 1]), p[k + 2]);
  }

  /** In the course of the run, the receiver of `c` handles it. */
  ghost predicate Handled(radio: Radio, limits: Limits, m: Mesh, run: seq<Event>, c: Copy)
    requires Runs(radio, limits, m, run)
    decreases run
  {
    && run != []
    && ((run[0].Handle? && m.air[run[0].i] == c)
        || Handled(radio, limits, Next(radio, limits, m, run[0]), run[1..], c))
  }

  ghost predicate Lossless(run: seq<Event>) { forall i :: 0 <= i < |run| ==> !run[i].Lose? }

  lemma {:induction false} RunAlong(radio: Radio, limits: Limits, m: Mesh, run: seq<Event>, p: seq<nat>)
    requires Way(radio, limits, p) && Runs(radio, limits, m, run) && Lossless(run) && Pending(m.air, p)
    requires After(radio, limits, m, run).air == []
    ensures Handled(radio, limits, m, run, OnWay(p, |p| - 2))
    decreases run
  {
    hide Way, Next, OnWay;
    var k: nat :| k + 1 < |p| && OnWay(p, k) in m.air;
    if run != [] {
      StepAlong(radio, limits, m, run[0], p, k);
      if !(run[0].Handle? && m.air[run[0].i] == OnWay(p, |p| - 2)) {
        RunAlong(radio, limits, Next(radio, limits, m, run[0]), run[1..], p);
      }
    }
  }

  lemma WayStarts(radio: Radio, limits: Limits, m: Mesh, p: seq<nat>)
    requires Way(radio, limits, p)
    ensures Pending(Next(radio, limits, m, Discover(p[0], p[|p| - 1])).air, p)
  {
    hide Broadcast;
    BroadcastHas(radio, Request(p[0], p[|p| - 1], [], p[0]), p[1]);
    assert p[1..1] == [];
    assert OnWay(p, 0) == Copy(p[1], Request(p[0], p[|p| - 1], [], p[0]));
    assert OnWay(p, 0) in Next(radio, limits, m, Discover(p[0], p[|p| - 1])).air;
  }

  /** When nothing is lost and the flood has died out, the destination has answered the request along every simple
      path within the limits, whatever else was going on. */
  lemma EveryWayAnswered(radio: Radio, limits: Limits, m: Mesh, p: seq<nat>, run: seq<Event>)
    requires Way(radio, limits, p) && Lossless(run)
    requires Runs(radio, limits, Next(radio, limits, m, Discover(p[0], p[|p| - 1])), run)
    requires After(radio, limits, Next(radio, limits, m, Discover(p[0], p[|p| - 1])), run).air == []
    ensures
      var last := OnWay(p, |p| - 2);
      && last.to == p[|p| - 1] && [last.req.source] + last.req.visited + [last.to] == p
      && Handled(radio, limits, Next(radio, limits, m, Discover(p[0], p[|p| - 1])), run, last)
      && React(last.to, limits, last.req) == Respond
  {
    hide Next, Runs, After, Handled, React, SimplePath, Lossless, Pending, OnWay;
    WayStarts(radio, limits, m, p);
    ReactOnWay(radio, limits, p, |p| - 2);
    LastOnWay(p);
    RunAlong(radio, limits, Next(radio, limits, m, Discover(p[0], p[|p| - 1])), run, p);
  }

  lemma LastOnWay(p: seq<nat>)
    requires |p| >= 2
    ensures
      var last := OnWay(p, |p| - 2);
      last.to == p[|p| - 1] && [last.req.source] + last.req.visited + [last.to] == p
  {
    assert [p[0]] + p[1..|p| - 1] + [p[|p| - 1]] == p;
  }

  /** Only the node asked for answers, and only along such a path. */
  lemma AnswerIsWay(radio: Radio, limits: Limits, c: Copy)
    requires RequestOk(radio, limits, c) && React(c.to, limits, c.req) == Respond
    ensures c.to == c.req.dest && Way(radio, limits, [c.req.source] + c.req.visited + [c.to])
  {
    var way := [c.req.source] + c.req.visited;
    var p := way + [c.to];
    forall i | 0 <= i < |p| - 1
      ensures p[i + 1] in radio(p[i])
    {
      if i < |way| - 1 { assert way[i + 1] in radio(way[i]); }
    }
    assert c.to !in way;
  }

  lemma {:induction false} HandledOk(radio: Radio, limits: Limits, m: Mesh, run: seq<Event>, c: Copy)
    requires Symmetric(radio) && Inv(radio, limits, m) && Runs(radio, limits, m, run)
    requires Handled(radio, limits, m, run, c)
    ensures RequestOk(radio, limits, c)
    decreases run
  {
    hide RequestOk, TableSound, Next;
    if !(run[0].Handle? && m.air[run[0].i] == c) {
      NextKeeps(radio, limits, m, run[0]);
      HandledOk(radio, limits, Next(radio, limits, m, run[0]), run[1..], c);
    }
  }

  /** In every run that starts with nothing on the air and no routes, with whatever losses: an answer is given by the
      node asked for only, to a request that has come along a simple path within the limits. */
  lemma AnswersOnWays(radio: Radio, limits: Limits, m: Mesh, run: seq<Event>, c: Copy)
    requires Symmetric(radio) && Runs(radio, limits, m, run) && m.air == []
    requires forall u: nat, i: nat :: i < |m.table(u)| ==> m.table(u)[i].state == Invalid
    requires Handled(radio, limits, m, run, c) && React(c.to, limits, c.req) == Respond
    ensures c.to == c.req.dest && Way(radio, limits, [c.req.source] + c.req.visited + [c.to])
  {
    HandledOk(radio, limits, m, run, c);
    AnswerIsWay(radio, limits, c);
    hide Way, RequestOk, React;
  }

  /** A node that has heard a request before, or sent it, does nothing; another passes it on exactly when it is not
      the one asked for and the limits allow. */
  lemma ReactIff(u: nat, limits: Limits, r: Request)
    ensures
      var a, seen := React(u, limits, r), u == r.source || u in r.visited;
      && (a == Respond <==> !seen && u == r.dest)
      && (a.Rebroadcast? <==> !seen && u != r.dest && |r.visited| < limits.maxHops && |r.visited| < limits.room)
      && (a.Rebroadcast? ==> a.req == Request(r.source, r.dest, r.visited + [u], u))
  {
  }
}
