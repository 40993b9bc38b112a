/** Hop-limited forwarding, and the router object with its routing table array. */
module Router {
  import opened RouteTable

  const BROADCAST_ADDRESS: nat := 255

  /** The end-to-end header of a routed message. */
  datatype Header = Header(dest: nat, source: nat, hops: nat, id: nat, flags: nat)

  datatype Action = DeliverHere | Relay(next: nat, header: Header) | Drop

  /** What a node does with a routed message that was not sent by itself. */
  function Forward(t: seq<Entry>, me: nat, maxHops: nat, h: Header): Action {
    if h.dest == me || h.dest == BROADCAST_ADDRESS then DeliverHere
    else if h.hops < maxHops then
      match Lookup(t, h.dest)
      case NoRoute => Drop
      case Via(next, _) => Relay(next, h.(hops := h.hops + 1))
    else Drop
  }

  // ---------------------------------------------------------------- journeys

  /** The routing tables of all nodes, which may change with every relay. */
  type Tables = (nat, nat) -> seq<Entry>

  datatype Fate = Delivered(node: nat, relays: nat, header: Header) | Lost(node: nat, relays: nat)

  /** A message on its way, now at `at`; `relays` counts the relays so far. */
  function Travel(tables: Tables, maxHops: nat, at: nat, h: Header, relays: nat): Fate
    decreases if h.hops <= maxHops then maxHops - h.hops else 0
  {
    match Forward(tables(relays, at), at, maxHops, h)
    case DeliverHere => Delivered(at, relays, h)
    case Relay(next, h') => Travel(tables, maxHops, next, h', relays + 1)
    case Drop => Lost(at, relays)
  }

  /** The node reached after `k` relays when every node on the way has a route; -1 when one has none. */
  function Chain(tables: Tables, at: nat, dest: nat, from: nat, k: nat): int
    decreases k
  {
    if k == 0 then at else
    match Lookup(tables(from, at), dest)
    case NoRoute => -1
    case Via(next, _) => Chain(tables, next, dest, from + 1, k - 1)
  }

  /** However the tables loop or change, a message is relayed at most `maxHops` times, and it is handed up only
      where it is addressed to, with its header as it was but for the hops, which are the relays; a broadcast is
      handed up by whoever hears it and never relayed. */
  lemma {:induction false} HopBound(tables: Tables, maxHops: nat, at: nat, h: Header, relays: nat)
    requires h.hops == relays <= maxHops
    ensures
      var f := Travel(tables, maxHops, at, h, relays);
      && relays <= f.relays <= maxHops
      && (h.dest == 255 ==> f == Delivered(at, relays, h))
      && (h.dest != 255 && f.Delivered? ==>
            && f.node == f.header.dest == h.dest && f.header.source == h.source && f.header.hops == f.relays
            && f.header.id == h.id && f.header.flags == h.flags)
    decreases if h.hops <= maxHops then maxHops - h.hops else 0
  {
    match Forward(tables(relays, at), at, maxHops, h)
    case DeliverHere =>
    case Relay(next, h') => HopBound(tables, maxHops, next, h', relays + 1);
    case Drop =>
  }

  /** The next hops reach the destination within `budget` relays. */
  ghost predicate Reaches(tables: Tables, at: nat, dest: nat, from: nat, budget: nat) {
    exists k :: 0 <= k <= budget && Chain(tables, at, dest, from, k) == dest
  }

  /** A message arrives exactly when the next hops lead to its destination within the relays it has left. */
  lemma {:induction false} DeliveredIff(tables: Tables, maxHops: nat, at: nat, h: Header, relays: nat)
    requires h.hops == relays <= maxHops && h.dest != 255
    ensures Travel(tables, maxHops, at, h, relays).Delivered? <==> Reaches(tables, at, h.dest, relays, maxHops - relays)
    decreases maxHops - relays
  {
    if at == h.dest {
      assert Chain(tables, at, h.dest, relays, 0) == h.dest;
    } else {
      ReachesStep(tables, at, h.dest, relays, maxHops - relays);
      match Lookup(tables(relays, at), h.dest)
      case NoRoute =>
      case Via(next, _) =>
        if relays < maxHops {
          DeliveredIff(tables, maxHops, next, h.(hops := h.hops + 1), relays + 1);
        }
    }
  }

  lemma ReachesStep(tables: Tables, at: nat, dest: nat, from: nat, budget: nat)
    requires at != dest
    ensures Reaches(tables, at, dest, from, budget)
       <==> budget > 0 && Lookup(tables(from, at), dest).Via?
            && Reaches(tables, Lookup(tables(from, at), dest).nextHop, dest, from + 1, budget - 1)
  {
    if Reaches(tables, at, dest, from, budget) {
      var k :| 0 <= k <= budget && Chain(tables, at, dest, from, k) == dest;
      if Lookup(tables(from, at), dest).Via? {
        assert Chain(tables, Lookup(tables(from, at), dest).nextHop, dest, from + 1, k - 1) == dest;
      }
    }
    if budget > 0 && Lookup(tables(from, at), dest).Via? {
      var next := Lookup(tables(from, at), dest).nextHop;
      if Reaches(tables, next, dest, from + 1, budget - 1) {
        var k :| 0 <= k <= budget - 1 && Chain(tables, next, dest, from + 1, k) == dest;
        assert Chain(tables, at, dest, from, k + 1) == dest;
      }
    }
  }

  // ---------------------------------------------------------------- the object

  class RhRouter {
    const thisAddress: nat
    const maxHops: nat
    const routes: array<Entry>

    ghost predicate Ready()
      reads this
    {
      routes.Length == TABLE_SIZE == 10
    }

    constructor (address: nat, maxHops: nat)
      ensures Ready() && fresh(routes) && WellFormed(routes[..]) && Routes(routes[..]) == []
      ensures thisAddress == address && this.maxHops == maxHops
    {
      thisAddress, this.maxHops := address, maxHops;
      routes := new Entry[TABLE_SIZE](_ => Entry(0, 0, Invalid));
      new;
      FreshTable(routes[..], 0);
    }

    method FindSlot(dest: nat) returns (i: nat)
      requires Ready()
      ensures i == FindDest(routes[..], dest)
    {
      i := 0;
      while i < TABLE_SIZE
        invariant 0 <= i <= TABLE_SIZE && forall j :: 0 <= j < i ==> routes[j].dest != dest
      {
        if routes[i].dest == dest { break; }
        i := i + 1;
      }
      FirstDest(routes[..], dest, i);
    }

    method FindFree() returns (i: nat)
      requires Ready()
      ensures i == FindInvalid(routes[..])
    {
      i := 0;
      while i < TABLE_SIZE
        invariant 0 <= i <= TABLE_SIZE && forall j :: 0 <= j < i ==> routes[j].state != Invalid
      {
        if routes[i].state == Invalid { break; }
        i := i + 1;
      }
      FirstInvalid(routes[..], i);
    }

    method AddRouteTo(dest: nat, nextHop: nat, state: RouteState)
      requires Ready()
      modifies routes
      ensures routes[..] == Add(old(routes[..]), Entry(dest, nextHop, state))
    {
      hide FindDest, FindInvalid, DeleteAt;
      var e := Entry(dest, nextHop, state);
      var i := FindSlot(dest);
      if i < TABLE_SIZE {
        routes[i] := e;
        assert routes[..] == old(routes[..])[i := e];
        return;
      }
      i := FindFree();
      if i < TABLE_SIZE {
        routes[i] := e;
        assert routes[..] == old(routes[..])[i := e];
        return;
      }
      RetireOldestRoute();
      ghost var t := routes[..];
      i := 0;
      while i < TABLE_SIZE
        invariant 0 <= i <= TABLE_SIZE
        invariant forall j :: 0 <= j < TABLE_SIZE ==>
          routes[j] == if j < i && t[j].state == Invalid then e else t[j]
      {
        if routes[i].state == Invalid { routes[i] := e; }
        i := i + 1;
      }
      assert routes[..] == FillInvalid(t, e);
    }

    method GetRouteTo(dest: nat) returns (r: Route)
      requires Ready()
      ensures r == Lookup(routes[..], dest)
    {
      var i := 0;
      while i < TABLE_SIZE
        invariant 0 <= i <= TABLE_SIZE
        invariant forall j :: 0 <= j < i ==> routes[j].dest != dest || routes[j].state == Invalid
      {
        if routes[i].dest == dest && routes[i].state != Invalid {
          assert FindRoute(routes[..], dest) == i;
          return Via(routes[i].nextHop, routes[i].state);
        }
        i := i + 1;
      }
      return NoRoute;
    }

    method DeleteRoute(index: nat)
      requires Ready() && index < TABLE_SIZE
      modifies routes
      ensures routes[..] == DeleteAt(old(routes[..]), index)
    {
      ghost var t := routes[..];
      var i := index;
      while i + 1 < TABLE_SIZE
        invariant index <= i < TABLE_SIZE
        invariant forall j :: 0 <= j < TABLE_SIZE && !(index <= j < i) ==> routes[j] == t[j]
        invariant forall j :: index <= j < i ==> routes[j] == t[j + 1]
      {
        assert routes[i + 1] == t[i + 1];
        routes[i] := routes[i + 1];
        i := i + 1;
      }
      assert routes[TABLE_SIZE - 1] == t[TABLE_SIZE - 1];
      routes[TABLE_SIZE - 1] := routes[TABLE_SIZE - 1].(state := Invalid);
      forall j | 0 <= j < TABLE_SIZE
        ensures routes[j] == DeleteAt(t, index)[j]
      {
        DeleteAtSlots(t, index, j);
      }
    }

    method DeleteRouteTo(dest: nat) returns (found: bool)
      requires Ready()
      modifies routes
      ensures routes[..] == DeleteTo(old(routes[..]), dest) && found == (FindDest(old(routes[..]), dest) < TABLE_SIZE)
    {
      var i := FindSlot(dest);
      found := i < TABLE_SIZE;
      if found { DeleteRoute(i); }
    }

    method RetireOldestRoute()
      requires Ready()
      modifies routes
      ensures routes[..] == DeleteAt(old(routes[..]), 0)
    {
      DeleteRoute(0);
    }

    method ClearRoutingTable()
      requires Ready()
      modifies routes
      ensures routes[..] == Clear(old(routes[..]))
    {
      ghost var t := routes[..];
      var i := 0;
      while i < TABLE_SIZE
        invariant 0 <= i <= TABLE_SIZE
        invariant forall j :: 0 <= j < TABLE_SIZE ==> routes[j] == if j < i then t[j].(state := Invalid) else t[j]
      {
        routes[i] := routes[i].(state := Invalid);
        i := i + 1;
      }
      assert routes[..] == Clear(t);
    }

    /** `recvfromAck` on a routed message: hand it up, pass it on, or drop it. */
    method Handle(h: Header) returns (a: Action)
      requires Ready() && h.hops < 256 && maxHops < 256
      ensures a == Forward(routes[..], thisAddress, maxHops, h)
      ensures a.Relay? ==> a.header.hops < 256
    {
      if h.dest == thisAddress || h.dest == BROADCAST_ADDRESS { return DeliverHere; }
      if h.hops < maxHops {
        var header := h.(hops := h.hops + 1);
        var r := GetRouteTo(header.dest);
        match r {
          case NoRoute => return Drop;
          case Via(next, _) => return Relay(next, header);
        }
      }
      return Drop;
    }
  }
}
