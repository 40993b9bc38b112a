/** Whether the node that answers a request still has the route it has just learnt to the requester. */
module MeshReply {
  import opened RouteTable
  import opened MeshFlood

  /** The destinations of a request's visited list, entered one after the other. */
  function MapAddAll(m: seq<Entry>, capacity: nat, dests: seq<nat>, next: nat): (r: seq<Entry>)
    requires 0 < capacity && |m| <= capacity
    ensures |m| <= |r| <= capacity
    decreases dests
  {
    if dests == [] then m else MapAddAll(MapAdd(m, capacity, Entry(dests[0], next, Valid)), capacity, dests[1..], next)
  }

  lemma {:induction false} AddAllRefines(t: Table, dests: seq<nat>, next: nat)
    requires WellFormed(t)
    ensures WellFormed(AddAll(t, dests, next))
    ensures Routes(AddAll(t, dests, next)) == MapAddAll(Routes(t), |t|, dests, next)
    decreases dests
  {
    hide Add, MapAdd, WellFormed, Routes;
    if dests != [] {
      AddRefines(t, Entry(dests[0], next, Valid));
      AddAllRefines(Add(t, Entry(dests[0], next, Valid)), dests[1..], next);
    }
  }

  /** How many of the earliest routes go when `dests` are entered: one for every destination that is not
      in the table when its turn comes and finds it full. */
  function PushedOut(m: seq<Entry>, capacity: nat, dests: seq<nat>, next: nat): nat
    requires 0 < capacity && |m| <= capacity
    decreases dests
  {
    if dests == [] then 0 else
    (if FindDest(m, dests[0]) == |m| == capacity then 1 else 0)
    + PushedOut(MapAdd(m, capacity, Entry(dests[0], next, Valid)), capacity, dests[1..], next)
  }

  ghost predicate DistinctDests(m: seq<Entry>) { forall i, j :: 0 <= i < j < |m| ==> m[i].dest != m[j].dest }

  lemma PlaceAfterAdd(m: seq<Entry>, capacity: nat, e: Entry, dest: nat)
    requires 0 < capacity && |m| <= capacity && DistinctDests(m) && dest != e.dest
    ensures
      var k, r := FindDest(m, dest), MapAdd(m, capacity, e);
      var evicts := FindDest(m, e.dest) == |m| == capacity;
      && DistinctDests(r)
      && FindDest(r, dest) == (if k == |m| || (evicts && k == 0) then |r| else if evicts then k - 1 else k)
      && (FindDest(r, dest) < |r| ==> r[FindDest(r, dest)] == m[k])
  {
    hide FindDest;
    var k, r := FindDest(m, dest), MapAdd(m, capacity, e);
    var evicts := FindDest(m, e.dest) == |m| == capacity;
    FirstDest(r, dest, if k == |m| || (evicts && k == 0) then |r| else if evicts then k - 1 else k);
  }

  lemma {:induction false} StaysAway(m: seq<Entry>, capacity: nat, dests: seq<nat>, next: nat, dest: nat)
    requires 0 < capacity && |m| <= capacity && DistinctDests(m) && dest !in dests && FindDest(m, dest) == |m|
    ensures MapLookup(MapAddAll(m, capacity, dests, next), dest) == NoRoute
    decreases dests
  {
    hide FindDest, MapAdd;
    if dests != [] {
      var e := Entry(dests[0], next, Valid);
      PlaceAfterAdd(m, capacity, e, dest);
      StaysAway(MapAdd(m, capacity, e), capacity, dests[1..], next, dest);
    }
  }

  /** A route outlives the additions exactly when there are earlier ones enough to be pushed out instead. */
  lemma {:induction false} OutlivesIff(m: seq<Entry>, capacity: nat, dests: seq<nat>, next: nat, dest: nat)
    requires 0 < capacity && |m| <= capacity && DistinctDests(m) && dest !in dests && FindDest(m, dest) < |m|
    ensures
      MapLookup(MapAddAll(m, capacity, dests, next), dest) ==
        if PushedOut(m, capacity, dests, next) <= FindDest(m, dest) then MapLookup(m, dest) else NoRoute
    decreases dests
  {
    hide FindDest, MapAdd;
    if dests != [] {
      var e := Entry(dests[0], next, Valid);
      var r := MapAdd(m, capacity, e);
      PlaceAfterAdd(m, capacity, e, dest);
      if FindDest(r, dest) < |r| {
        OutlivesIff(r, capacity, dests[1..], next, dest);
      } else {
        StaysAway(r, capacity, dests[1..], next, dest);
      }
    }
  }

  /** The table after the requester's own route has gone in. */
  function WithSource(t: Table, r: Request): (m: seq<Entry>)
    requires WellFormed(t)
    ensures |m| <= |t|
  {
    MapAdd(Routes(t), |t|, Entry(r.source, r.from, Valid))
  }

  lemma SourcePlaced(t: Table, r: Request)
    requires WellFormed(t)
    ensures
      var m := WithSource(t, r);
      var k := FindDest(m, r.source);
      DistinctDests(m) && k < |m| && m[k] == Entry(r.source, r.from, Valid)
      && (FindDest(Routes(t), r.source) == |Routes(t)| ==>
            k == |m| - 1 && |m| == if |Routes(t)| < |t| then |Routes(t)| + 1 else |t|)
  {
    hide FindDest;
    var q, m := Routes(t), WithSource(t, r);
    var k := FindDest(q, r.source);
    FirstDest(m, r.source, if k < |q| then k else |m| - 1);
  }

  /** A node that has recorded the routes back from a request has one to the requester, over the node it heard
      the request from, exactly when recording them pushed out no more routes than were older than the requester's. */
  lemma ReplyRouteIff(t: Table, u: nat, r: Request)
    requires WellFormed(t) && u != r.source && u !in r.visited && r.source !in r.visited
    ensures
      var m := WithSource(t, r);
      Lookup(Learn(t, u, r), r.source) ==
        if PushedOut(m, |t|, r.visited, r.from) <= FindDest(m, r.source) then Via(r.from, Valid) else NoRoute
  {
    var dests := [r.source] + r.visited;
    assert dests[1..] == r.visited;
    var e := Entry(r.source, r.from, Valid);
    assert Learn(t, u, r) == AddAll(Add(t, e), r.visited, r.from);
    hide FindDest, FindRoute, Add, MapAdd, PushedOut, MapAddAll, AddAll, Learn, Prefix;
    AddRefines(t, e);
    AddAllRefines(Add(t, e), r.visited, r.from);
    LookupIsMapLookup(Learn(t, u, r), r.source);
    SourcePlaced(t, r);
    OutlivesIff(WithSource(t, r), |t|, r.visited, r.from, r.source);
  }

  lemma {:induction false} PushedOutBound(m: seq<Entry>, capacity: nat, dests: seq<nat>, next: nat)
    requires 0 < capacity && |m| <= capacity
    ensures
      var p := PushedOut(m, capacity, dests, next);
      p == 0 || p <= |dests| - (capacity - |m|)
    decreases dests
  {
    hide FindDest;
    if dests != [] {
      PushedOutBound(MapAdd(m, capacity, Entry(dests[0], next, Valid)), capacity, dests[1..], next);
    }
  }

  /** A requester not yet in the table is safe from fewer visited nodes than the table has slots. */
  lemma NewSourceHasRoute(t: Table, u: nat, r: Request)
    requires WellFormed(t) && u != r.source && u !in r.visited && r.source !in r.visited
    requires FindDest(Routes(t), r.source) == |Routes(t)| && |r.visited| < |t|
    ensures Lookup(Learn(t, u, r), r.source) == Via(r.from, Valid)
  {
    hide FindDest, FindRoute, Add, MapAdd, PushedOut, Learn, Prefix;
    ReplyRouteIff(t, u, r);
    SourcePlaced(t, r);
    PushedOutBound(WithSource(t, r), |t|, r.visited, r.from);
  }

  /** With room for all of them, every node that a request has passed can be reached over the node it was heard from,
      and the other routes stay. */
  lemma LearnsAll(t: Table, u: nat, r: Request, d: nat)
    requires WellFormed(t) && u != r.source && u !in r.visited
    requires |Routes(t)| + 1 + |r.visited| <= |t|
    ensures Lookup(Learn(t, u, r), d) == if d == r.source || d in r.visited then Via(r.from, Valid) else Lookup(t, d)
  {
    hide AddAll, Lookup;
    AllAdded(t, [r.source] + r.visited, r.from, d);
  }

  lemma {:induction false} AllAdded(t: Table, dests: seq<nat>, next: nat, d: nat)
    requires WellFormed(t) && |Routes(t)| + |dests| <= |t|
    ensures Lookup(AddAll(t, dests, next), d) == if d in dests then Via(next, Valid) else Lookup(t, d)
    decreases dests
  {
    hide Add, MapAdd, WellFormed, Lookup, FindDest;
    if dests != [] {
      var e := Entry(dests[0], next, Valid);
      AddRefines(t, e);
      MapAddGrows(Routes(t), |t|, e);
      AllAdded(Add(t, e), dests[1..], next, d);
      AddThenLookup(t, e, d);
    }
  }

  lemma MapAddGrows(m: seq<Entry>, capacity: nat, e: Entry)
    requires 0 < capacity && |m| <= capacity
    ensures |MapAdd(m, capacity, e)| <= |m| + 1
  {
  }

  /** A node that has seen a request before, or sent it, learns nothing. */
  lemma LearnsOnce(t: Table, u: nat, r: Request)
    requires u == r.source || u in r.visited
    ensures Learn(t, u, r) == t
  {
  }

  /** The answer can fail: in a full table whose oldest route is the requester's, the one node on the way
      takes its place, and the node asked for has no route to answer over. */
  lemma ReplyRouteLost()
    ensures
      var t: Table := seq(TABLE_SIZE, i requires 0 <= i < TABLE_SIZE => Entry(i, 20, Valid));
      var r := Request(0, 30, [11], 11);
      WellFormed(t) && React(30, Limits(30, 200), r) == Respond && Lookup(Learn(t, 30, r), 0) == NoRoute
  {
    var t: Table := seq(TABLE_SIZE, i requires 0 <= i < TABLE_SIZE => Entry(i, 20, Valid));
    var r := Request(0, 30, [11], 11);
    FirstInvalid(t, TABLE_SIZE);
    FirstDest(t, 0, 0);
    var m := WithSource(t, r);
    assert m == t[0 := Entry(0, 11, Valid)];
    FirstDest(m, 0, 0);
    FirstDest(m, 11, TABLE_SIZE);
    hide FindDest, FindInvalid, FindRoute, Add, MapAdd, Learn;
    ReplyRouteIff(t, 30, r);
  }
}
