/** The router's fixed-size routing table, and the bounded insertion-ordered map it implements. */
module RouteTable {

  const TABLE_SIZE := 10

  datatype RouteState = Invalid | Discovering | Valid

  datatype Entry = Entry(dest: nat, nextHop: nat, state: RouteState)

  // ---------------------------------------------------------------- the table operations on values

  /** The first slot for `dest`, whatever its state; the table length when there is none. */
  function FindDest(t: seq<Entry>, dest: nat): (k: nat)
    ensures k <= |t| && (k < |t| ==> t[k].dest == dest) && forall i :: 0 <= i < k ==> t[i].dest != dest
  {
    if t == [] then 0 else if t[0].dest == dest then 0 else 1 + FindDest(t[1..], dest)
  }

  function FindInvalid(t: seq<Entry>): (k: nat)
    ensures k <= |t| && (k < |t| ==> t[k].state == Invalid) && forall i :: 0 <= i < k ==> t[i].state != Invalid
  {
    if t == [] then 0 else if t[0].state == Invalid then 0 else 1 + FindInvalid(t[1..])
  }

  function FindRoute(t: seq<Entry>, dest: nat): (k: nat)
    ensures k <= |t| && (k < |t| ==> t[k].dest == dest && t[k].state != Invalid)
    ensures forall i :: 0 <= i < k ==> t[i].dest != dest || t[i].state == Invalid
  {
    if t == [] then 0 else if t[0].dest == dest && t[0].state != Invalid then 0 else 1 + FindRoute(t[1..], dest)
  }

  /** Later entries move down one slot; the last slot keeps its contents but becomes invalid. */
  function DeleteAt(t: seq<Entry>, k: nat): (r: seq<Entry>)
    requires k < |t|
    ensures |r| == |t|
  {
    t[..k] + t[k + 1..] + [t[|t| - 1].(state := Invalid)]
  }

  /** The last resort of `addRouteTo` fills every invalid slot. */
  function FillInvalid(t: seq<Entry>, e: Entry): (r: seq<Entry>)
    ensures |r| == |t|
    ensures forall i :: 0 <= i < |t| ==> r[i] == if t[i].state == Invalid then e else t[i]
  {
    seq(|t|, i requires 0 <= i < |t| => if t[i].state == Invalid then e else t[i])
  }

  function Add(t: seq<Entry>, e: Entry): (r: seq<Entry>)
    requires t != []
    ensures |r| == |t|
  {
    var k := FindDest(t, e.dest);
    if k < |t| then t[k := e] else
    var j := FindInvalid(t);
    if j < |t| then t[j := e] else FillInvalid(DeleteAt(t, 0), e)
  }

  function DeleteTo(t: seq<Entry>, dest: nat): (r: seq<Entry>)
    ensures |r| == |t|
  {
    var k := FindDest(t, dest);
    if k < |t| then DeleteAt(t, k) else t
  }

  function Retire(t: seq<Entry>): (r: seq<Entry>)
    requires t != []
    ensures |r| == |t|
  {
    DeleteAt(t, 0)
  }

  // ---------------------------------------------------------------- the map it implements

  /** Valid entries first, with distinct destinations; the rest invalid. */
  ghost predicate Prefix(t: seq<Entry>) {
    var c := FindInvalid(t);
    && (forall i :: c <= i < |t| ==> t[i].state == Invalid)
    && (forall i, j :: 0 <= i < j < c ==> t[i].dest != t[j].dest)
  }

  /** All unused slots remember the same destination. */
  ghost predicate SameStale(t: seq<Entry>) {
    forall i, j :: FindInvalid(t) <= i < |t| && FindInvalid(t) <= j < |t| ==> t[i].dest == t[j].dest
  }

  ghost predicate WellFormed(t: seq<Entry>) { t != [] && Prefix(t) && SameStale(t) }

  /** The routes in the order in which their destinations were first added. */
  function Routes(t: seq<Entry>): seq<Entry> { t[..FindInvalid(t)] }

  /** An insertion-ordered map of at most `capacity` destinations: an update keeps its place,
      a new destination goes last, and when there is no room the earliest one goes. */
  function MapAdd(m: seq<Entry>, capacity: nat, e: Entry): (r: seq<Entry>)
    requires 0 < capacity && |m| <= capacity
    ensures |m| <= |r| <= capacity
  {
    var k := FindDest(m, e.dest);
    if k < |m| then m[k := e]
    else if |m| < capacity then m + [e]
    else m[1..] + [e]
  }

  function MapDelete(m: seq<Entry>, dest: nat): seq<Entry> {
    var k := FindDest(m, dest);
    if k < |m| then m[..k] + m[k + 1..] else m
  }

  // ---------------------------------------------------------------- refinement

  lemma FirstDest(t: seq<Entry>, dest: nat, k: nat)
    requires k <= |t| && (k < |t| ==> t[k].dest == dest) && forall i :: 0 <= i < k ==> t[i].dest != dest
    ensures FindDest(t, dest) == k
  {
  }

  lemma FirstInvalid(t: seq<Entry>, k: nat)
    requires k <= |t| && (k < |t| ==> t[k].state == Invalid) && forall i :: 0 <= i < k ==> t[i].state != Invalid
    ensures FindInvalid(t) == k
  {
  }

  /** Adding a route never leaves a gap: it updates in place, takes the first free slot, or evicts the earliest. */
  lemma AddRefines(t: seq<Entry>, e: Entry)
    requires WellFormed(t) && e.state != Invalid
    ensures WellFormed(Add(t, e)) && Routes(Add(t, e)) == MapAdd(Routes(t), |t|, e)
  {
    hide FindInvalid, FindDest;
    var c := FindInvalid(t);
    var k := FindDest(t, e.dest);
    var m := Routes(t);
    if k < c {
      FirstDest(m, e.dest, k);
      FirstInvalid(t[k := e], c);
    } else {
      FirstDest(m, e.dest, c);
      if c < |t| {
        if k < |t| { assert t[c].dest == t[k].dest; }
        assert Add(t, e) == t[c := e];
        FirstInvalid(t[c := e], c + 1);
        assert t[c := e][..c + 1] == m + [e];
      } else {
        EvictRefines(t, e);
      }
    }
  }

  lemma EvictRefines(t: seq<Entry>, e: Entry)
    requires WellFormed(t) && e.state != Invalid && FindInvalid(t) == |t| && FindDest(t, e.dest) == |t|
    ensures WellFormed(Add(t, e)) && Routes(Add(t, e)) == Routes(t)[1..] + [e]
  {
    hide FindInvalid, FindDest, Add;
    var n := |t|;
    EvictSlots(t, e);
    var r := t[1..] + [e];
    FirstInvalid(r, n);
  }

  lemma EvictSlots(t: seq<Entry>, e: Entry)
    requires t != [] && FindInvalid(t) == |t| && FindDest(t, e.dest) == |t|
    ensures Add(t, e) == t[1..] + [e]
  {
    hide FindInvalid, FindDest;
    var d := DeleteAt(t, 0);
    assert forall i :: 0 <= i < |t| ==> t[i].state != Invalid;
  }

  lemma DeleteRefines(t: seq<Entry>, dest: nat)
    requires WellFormed(t)
    ensures WellFormed(DeleteTo(t, dest)) && Routes(DeleteTo(t, dest)) == MapDelete(Routes(t), dest)
  {
    var k := FindDest(t, dest);
    var c := FindInvalid(t);
    if k < |t| {
      DeleteAtRefines(t, k);
      FirstDest(Routes(t), dest, if k < c then k else c);
    } else {
      FirstDest(Routes(t), dest, c);
    }
  }

  lemma DeleteAtSlots(t: seq<Entry>, k: nat, i: nat)
    requires k < |t| && i < |t|
    ensures DeleteAt(t, k)[i] == if i < k then t[i] else if i + 1 < |t| then t[i + 1] else t[|t| - 1].(state := Invalid)
  {
  }

  lemma DeleteAtRefines(t: seq<Entry>, k: nat)
    requires WellFormed(t) && k < |t|
    ensures WellFormed(DeleteAt(t, k))
    ensures
      var m := Routes(t);
      Routes(DeleteAt(t, k)) == if k < |m| then m[..k] + m[k + 1..] else m
  {
    hide FindInvalid, DeleteAt;
    var c, r := FindInvalid(t), DeleteAt(t, k);
    var d := if k < c then c - 1 else c;
    forall i | 0 <= i < |t|
      ensures r[i].state == Invalid <==> i >= d
      ensures i < d ==> r[i] == t[if i < k then i else i + 1]
      ensures i >= d ==> r[i].dest == t[|t| - 1].dest
    {
      DeleteAtSlots(t, k, i);
    }
    FirstInvalid(r, d);
  }

  /** A lookup finds exactly the routes of the map. */
  lemma LookupRefines(t: seq<Entry>, dest: nat)
    requires WellFormed(t)
    ensures
      var k, j := FindRoute(t, dest), FindDest(Routes(t), dest);
      (k < |t| <==> j < |Routes(t)|) && (k < |t| ==> k == j)
  {
    var k, j := FindRoute(t, dest), FindDest(Routes(t), dest);
    if j < |Routes(t)| { assert Routes(t)[j] == t[j]; }
    if k < |t| { assert Routes(t)[k] == t[k]; }
  }

  datatype Op = AddOp(e: Entry) | DeleteOp(dest: nat) | RetireOp

  function Apply(t: seq<Entry>, op: Op): (r: seq<Entry>)
    requires t != []
    ensures |r| == |t|
  {
    match op
    case AddOp(e) => Add(t, e)
    case DeleteOp(dest) => DeleteTo(t, dest)
    case RetireOp => Retire(t)
  }

  function MapApply(m: seq<Entry>, capacity: nat, op: Op): (r: seq<Entry>)
    requires 0 < capacity && |m| <= capacity
    ensures |r| <= capacity
  {
    match op
    case AddOp(e) => MapAdd(m, capacity, e)
    case DeleteOp(dest) => MapDelete(m, dest)
    case RetireOp => if m == [] then m else m[1..]
  }

  function ApplyAll(t: seq<Entry>, ops: seq<Op>): (r: seq<Entry>)
    requires t != []
    ensures |r| == |t|
  {
    if ops == [] then t else Apply(ApplyAll(t, ops[..|ops| - 1]), ops[|ops| - 1])
  }

  function MapApplyAll(m: seq<Entry>, capacity: nat, ops: seq<Op>): (r: seq<Entry>)
    requires 0 < capacity && |m| <= capacity
    ensures |r| <= capacity
  {
    if ops == [] then m else MapApply(MapApplyAll(m, capacity, ops[..|ops| - 1]), capacity, ops[|ops| - 1])
  }

  /** From a well-formed table, any sequence of additions, deletions and retirements behaves as the map. */
  lemma {:induction false} TableRefinesMap(t: seq<Entry>, ops: seq<Op>)
    requires WellFormed(t) && forall i :: 0 <= i < |ops| && ops[i].AddOp? ==> ops[i].e.state != Invalid
    ensures WellFormed(ApplyAll(t, ops)) && Routes(ApplyAll(t, ops)) == MapApplyAll(Routes(t), |t|, ops)
  {
    if ops != [] {
      var before, op := ops[..|ops| - 1], ops[|ops| - 1];
      TableRefinesMap(t, before);
      var s := ApplyAll(t, before);
      match op
      case AddOp(e) => AddRefines(s, e);
      case DeleteOp(dest) => DeleteRefines(s, dest);
      case RetireOp => DeleteAtRefines(s, 0);
    }
  }

  /** A table whose slots are all unused and alike, as zero-filled memory is, is well-formed and empty. */
  lemma FreshTable(t: seq<Entry>, dest: nat)
    requires t != [] && forall i :: 0 <= i < |t| ==> t[i].state == Invalid && t[i].dest == dest
    ensures WellFormed(t) && Routes(t) == []
  {
    FirstInvalid(t, 0);
  }

  // ---------------------------------------------------------------- what a user of the table sees

  datatype Route = NoRoute | Via(nextHop: nat, state: RouteState)

  function Lookup(t: seq<Entry>, dest: nat): Route {
    var k := FindRoute(t, dest);
    if k < |t| then Via(t[k].nextHop, t[k].state) else NoRoute
  }

  function MapLookup(m: seq<Entry>, dest: nat): Route {
    var k := FindDest(m, dest);
    if k < |m| then Via(m[k].nextHop, m[k].state) else NoRoute
  }

  lemma LookupIsMapLookup(t: seq<Entry>, dest: nat)
    requires WellFormed(t)
    ensures Lookup(t, dest) == MapLookup(Routes(t), dest)
  {
    LookupRefines(t, dest);
  }

  lemma MapAddLookup(m: seq<Entry>, capacity: nat, e: Entry, dest: nat)
    requires 0 < capacity && |m| <= capacity && forall i, j :: 0 <= i < j < |m| ==> m[i].dest != m[j].dest
    ensures
      MapLookup(MapAdd(m, capacity, e), dest) ==
        if dest == e.dest then Via(e.nextHop, e.state)
        else if |m| == capacity && FindDest(m, e.dest) == |m| && dest == m[0].dest then NoRoute
        else MapLookup(m, dest)
  {
    hide FindDest;
    var q := MapAdd(m, capacity, e);
    var k, j := FindDest(m, e.dest), FindDest(m, dest);
    if k < |m| {
      FirstDest(q, dest, j);
    } else if |m| < capacity {
      FirstDest(q, dest, if dest == e.dest then |m| else if j < |m| then j else |q|);
    } else {
      FirstDest(q, dest, if dest == e.dest then |m| - 1 else if 0 < j < |m| then j - 1 else |q|);
    }
  }

  /** After an addition the new hop is found; other destinations keep theirs, except that a new destination
      in a full table costs the one added earliest. */
  lemma AddThenLookup(t: seq<Entry>, e: Entry, dest: nat)
    requires WellFormed(t) && e.state != Invalid
    ensures
      var evicts := Routes(t) == t && FindDest(t, e.dest) == |t|;
      Lookup(Add(t, e), dest) ==
        if dest == e.dest then Via(e.nextHop, e.state)
        else if evicts && dest == t[0].dest then NoRoute
        else Lookup(t, dest)
  {
    hide Add, MapAdd, MapLookup, Lookup;
    AddRefines(t, e);
    LookupIsMapLookup(Add(t, e), dest);
    LookupIsMapLookup(t, dest);
    MapAddLookup(Routes(t), |t|, e, dest);
  }

  /** Routes to destinations, in the order of a list. */
  function Entries(dests: seq<nat>, next: nat): (m: seq<Entry>)
    ensures |m| == |dests| && forall i :: 0 <= i < |dests| ==> m[i] == Entry(dests[i], next, Valid)
  {
    seq(|dests|, i requires 0 <= i < |dests| => Entry(dests[i], next, Valid))
  }

  function Additions(dests: seq<nat>, next: nat): (ops: seq<Op>)
    ensures |ops| == |dests| && forall i :: 0 <= i < |dests| ==> ops[i] == AddOp(Entry(dests[i], next, Valid))
  {
    seq(|dests|, i requires 0 <= i < |dests| => AddOp(Entry(dests[i], next, Valid)))
  }

  function LastOf(dests: seq<nat>, n: nat): seq<nat> { if |dests| <= n then dests else dests[|dests| - n..] }

  /** Of different destinations entered into an empty table one after the other, the last ones remain, as many as the
      table has slots, in the order in which they were entered. */
  lemma {:induction false} LastRemain(t: seq<Entry>, dests: seq<nat>, next: nat)
    requires t != [] && WellFormed(t) && Routes(t) == []
    requires forall i, j :: 0 <= i < j < |dests| ==> dests[i] != dests[j]
    ensures WellFormed(ApplyAll(t, Additions(dests, next)))
    ensures Routes(ApplyAll(t, Additions(dests, next))) == Entries(LastOf(dests, |t|), next)
  {
    hide Add, MapAdd, WellFormed, Routes, FindDest, LastOf;
    if dests != [] {
      var n := |dests| - 1;
      var e, before := Entry(dests[n], next, Valid), Additions(dests[..n], next);
      LastRemain(t, dests[..n], next);
      assert Additions(dests, next)[..n] == before && Additions(dests, next)[n] == AddOp(e);
      AddRefines(ApplyAll(t, before), e);
      LastGrows(dests, |t|);
      NewGoesLast(LastOf(dests[..n], |t|), |t|, e);
      assert MapAdd(Entries(LastOf(dests[..n], |t|), next), |t|, e) == Entries(LastOf(dests, |t|), next);
    } else {
      NoneLast(|t|);
      assert Additions(dests, next) == [] && Entries([], next) == [];
    }
  }

  lemma NoneLast(n: nat)
    ensures LastOf([], n) == []
  {
  }

  lemma LastGrows(dests: seq<nat>, n: nat)
    requires dests != [] && n > 0 && forall i, j :: 0 <= i < j < |dests| ==> dests[i] != dests[j]
    ensures
      var m := LastOf(dests[..|dests| - 1], n);
      && |m| <= n && dests[|dests| - 1] !in m
      && LastOf(dests, n) == (if |m| < n then m else m[1..]) + [dests[|dests| - 1]]
  {
  }

  lemma NewGoesLast(dests: seq<nat>, capacity: nat, e: Entry)
    requires 0 < capacity && |dests| <= capacity && e.dest !in dests
    ensures
      var m := Entries(dests, e.nextHop);
      MapAdd(m, capacity, e) == (if |m| < capacity then m else m[1..]) + [e]
  {
    FirstDest(Entries(dests, e.nextHop), e.dest, |dests|);
  }

  // ---------------------------------------------------------------- clearing

  /** `clearRoutingTable` invalidates every slot but leaves the destinations where they were. */
  function Clear(t: seq<Entry>): (r: seq<Entry>)
    ensures |r| == |t| && forall i :: 0 <= i < |t| ==> r[i] == t[i].(state := Invalid)
  {
    seq(|t|, i requires 0 <= i < |t| => t[i].(state := Invalid))
  }

  /** A cleared table has no routes. */
  lemma ClearForgets(t: seq<Entry>, dest: nat)
    ensures Lookup(Clear(t), dest) == NoRoute
  {
  }

  /** The slots in use form a prefix. */
  ghost predicate NoGaps(t: seq<Entry>) {
    forall i :: FindInvalid(t) <= i < |t| ==> t[i].state == Invalid
  }

  /** With arbitrary leftovers, an addition keeps the routes together exactly when the first slot that
      remembers the destination, if there is one, is not beyond the first free slot. */
  lemma NoGapsIff(t: seq<Entry>, e: Entry)
    requires t != [] && NoGaps(t) && e.state != Invalid
    ensures NoGaps(Add(t, e)) <==> FindDest(t, e.dest) == |t| || FindDest(t, e.dest) <= FindInvalid(t)
  {
    hide FindInvalid, FindDest;
    var c, k := FindInvalid(t), FindDest(t, e.dest);
    var r := Add(t, e);
    if k < |t| {
      FirstInvalid(r, if k == c then c + 1 else c);
      if k > c { assert r[k].state != Invalid; }
    } else if c < |t| {
      FirstInvalid(r, c + 1);
    } else {
      EvictSlots(t, e);
      FirstInvalid(r, |t|);
    }
  }

  /** With arbitrary leftovers in the slots not in use, an addition is that of the insertion-ordered map exactly when
      the first slot that remembers the destination, if there is one, is not beyond the first free slot. */
  lemma OrderKeptIff(t: seq<Entry>, e: Entry)
    requires t != [] && Prefix(t) && e.state != Invalid
    ensures
      var r := Add(t, e);
      Prefix(r) && Routes(r) == MapAdd(Routes(t), |t|, e)
      <==> FindDest(t, e.dest) == |t| || FindDest(t, e.dest) <= FindInvalid(t)
  {
    hide FindInvalid, FindDest;
    var c, k := FindInvalid(t), FindDest(t, e.dest);
    var r, m := Add(t, e), Routes(t);
    if k < c {
      FirstDest(m, e.dest, k);
      FirstInvalid(r, c);
    } else if k < |t| && k > c {
      assert r[c] == t[c] && r[k].state != Invalid;
      FirstInvalid(r, c);
    } else {
      FirstDest(m, e.dest, c);
      if c < |t| {
        assert r == t[c := e];
        FirstInvalid(r, c + 1);
        assert r[..c + 1] == m + [e];
      } else {
        EvictRefines(t, e);
      }
    }
  }

  /** A table of ten routes to the destinations 0 to 9. */
  function TenRoutes(): (t: seq<Entry>)
    ensures |t| == TABLE_SIZE
  {
    seq(TABLE_SIZE, i requires 0 <= i < TABLE_SIZE => Entry(i, i, Valid))
  }

  /** The same after clearing, and after adding routes to 1 and then to 20. */
  function Reused(): (r: seq<Entry>)
    ensures |r| == TABLE_SIZE
  {
    Add(Add(Clear(TenRoutes()), Entry(1, 7, Valid)), Entry(20, 8, Valid))
  }

  lemma ReusedSlots()
    ensures Reused()[0] == Entry(20, 8, Valid) && Reused()[1] == Entry(1, 7, Valid)
    ensures forall i :: 2 <= i < TABLE_SIZE ==> Reused()[i] == Entry(i, i, Invalid)
  {
    var c := Clear(TenRoutes());
    FirstDest(c, 1, 1);
    var a := Add(c, Entry(1, 7, Valid));
    assert a == c[1 := Entry(1, 7, Valid)];
    FirstDest(a, 20, TABLE_SIZE);
    FirstInvalid(a, 0);
    assert Reused() == a[0 := Entry(20, 8, Valid)];
  }

  lemma FirstRoute(t: seq<Entry>, dest: nat, k: nat)
    requires k <= |t| && (k < |t| ==> t[k].dest == dest && t[k].state != Invalid)
    requires forall i :: 0 <= i < k ==> t[i].dest != dest || t[i].state == Invalid
    ensures FindRoute(t, dest) == k
  {
  }

  /** After clearing, the table can retire a newer route before an older one: here the later of two additions goes. */
  lemma ClearBreaksOrder()
    ensures
      var r := Reused();
      && Lookup(r, 1) == Via(7, Valid) && Lookup(r, 20) == Via(8, Valid)
      && Lookup(Retire(r), 1) == Via(7, Valid) && Lookup(Retire(r), 20) == NoRoute
  {
    ReusedSlots();
    hide Reused, FindRoute;
    var r := Reused();
    FirstRoute(r, 1, 1);
    FirstRoute(r, 20, 0);
    forall i | 0 <= i < TABLE_SIZE
      ensures Retire(r)[i] == if i + 1 < TABLE_SIZE then r[i + 1] else r[i].(state := Invalid)
    {
      DeleteAtSlots(r, 0, i);
    }
    FirstRoute(Retire(r), 1, 0);
    FirstRoute(Retire(r), 20, TABLE_SIZE);
  }
}
