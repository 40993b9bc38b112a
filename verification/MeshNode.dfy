/** One mesh node: the handling of a discovery request in the shared message buffer, and of a failed relay. */
module MeshNode {
  import opened RouteTable
  import opened Router
  import opened MeshFlood

  const DISCOVERY_REQUEST: nat := 1
  const DISCOVERY_RESPONSE: nat := 2

  /** Octets of routing header in front of the mesh message. */
  const ROUTED_HEADER: nat := 5

  /** A discovery message: type, address length, address sought, nodes visited. */
  function Encode(r: Request): (msg: seq<nat>) { [DISCOVERY_REQUEST, 1, r.dest] + r.visited }

  function Decode(msg: seq<nat>, source: nat, from: nat): (r: Request)
    requires |msg| >= 3 && msg[0] == DISCOVERY_REQUEST && msg[1] == 1
    ensures Encode(r) == msg && r.source == source && r.from == from
  {
    Request(source, msg[2], msg[3..], from)
  }

  // ---------------------------------------------------------------- a relay that fails

  predicate Fails(t: seq<Entry>, dest: nat, acked: bool) {
    dest != BROADCAST_ADDRESS && (Lookup(t, dest) == NoRoute || !acked)
  }

  /** The table from which a report of the failure is routed back towards the originator. */
  function Reporting(t: Table, dest: nat, source: nat, from: nat): (r: Table)
    ensures |r| == |t|
  {
    Add(DeleteTo(t, dest), Entry(source, from, Valid))
  }

  /** The table after an attempt to pass a message on; `acked` and `reportAcked` say whether the next hop
      acknowledged the message and, after a failure, the report. */
  function AfterRoute(t: Table, me: nat, dest: nat, source: nat, from: nat, acked: bool, reportAcked: bool): (r: Table)
    ensures |r| == |t|
  {
    if !Fails(t, dest, acked) then t
    else if source == me then DeleteTo(t, dest)
    else if reportAcked then Reporting(t, dest, source, from)
    else DeleteTo(Reporting(t, dest, source, from), source)
  }

  lemma MapDeleteLookup(m: seq<Entry>, dest: nat, d: nat)
    requires forall i, j :: 0 <= i < j < |m| ==> m[i].dest != m[j].dest
    ensures MapLookup(MapDelete(m, dest), d) == if d == dest then NoRoute else MapLookup(m, d)
  {
    hide FindDest;
    var k, j, r := FindDest(m, dest), FindDest(m, d), MapDelete(m, dest);
    if k < |m| {
      FirstDest(r, d, if d == dest || j == |m| then |r| else if j < k then j else j - 1);
    }
  }

  /** A failure report about `dest` removes the route to it and no other. */
  lemma DeleteThenLookup(t: seq<Entry>, dest: nat, d: nat)
    requires WellFormed(t)
    ensures WellFormed(DeleteTo(t, dest)) && Lookup(DeleteTo(t, dest), d) == if d == dest then NoRoute else Lookup(t, d)
  {
    hide DeleteTo, MapDelete, MapLookup, Lookup, FindDest, FindInvalid;
    DeleteRefines(t, dest);
    LookupIsMapLookup(DeleteTo(t, dest), d);
    LookupIsMapLookup(t, d);
    MapDeleteLookup(Routes(t), dest, d);
  }

  /** The report of a failed relay always has a route: back over the node the message came from. */
  lemma ReportHasRoute(t: Table, dest: nat, source: nat, from: nat)
    requires WellFormed(t)
    ensures WellFormed(Reporting(t, dest, source, from))
    ensures Lookup(Reporting(t, dest, source, from), source) == Via(from, Valid)
  {
    hide DeleteTo, Add, Lookup, FindDest, FindInvalid, Prefix;
    DeleteThenLookup(t, dest, dest);
    AddRefines(DeleteTo(t, dest), Entry(source, from, Valid));
    AddThenLookup(DeleteTo(t, dest), Entry(source, from, Valid), source);
  }

  /** A failed relay forgets the destination, keeps the way back to the originator only if the report got
      through, and touches nobody else's route if it had a route to forget. */
  lemma FailureForgets(t: Table, me: nat, dest: nat, source: nat, from: nat, acked: bool, reportAcked: bool, d: nat)
    requires WellFormed(t) && dest != 255 && !(Lookup(t, dest).Via? && acked)
    ensures
      var r := AfterRoute(t, me, dest, source, from, acked, reportAcked);
      && WellFormed(r)
      && (d == source != me ==> Lookup(r, d) == if reportAcked then Via(from, Valid) else NoRoute)
      && (d == dest && (d != source || d == me) ==> Lookup(r, d) == NoRoute)
      && (d != dest && (d != source || d == me) && (source == me || Lookup(t, dest).Via?) ==>
            Lookup(r, d) == Lookup(t, d))
  {
    hide DeleteTo, Add, Lookup, FindDest, Prefix, SameStale;
    DeleteThenLookup(t, dest, d);
    if source != me {
      var s, e := DeleteTo(t, dest), Entry(source, from, Valid);
      ReportHasRoute(t, dest, source, from);
      AddThenLookup(s, e, d);
      DeleteThenLookup(Reporting(t, dest, source, from), source, d);
      if Lookup(t, dest).Via? { RoomAfterDelete(t, dest); }
    }
  }

  /** A relay has not failed when the message is a broadcast, or when there is a route and the next hop acknowledged.
      Then nothing is forgotten or learnt. */
  lemma SuccessKeeps(t: Table, me: nat, dest: nat, source: nat, from: nat, acked: bool, reportAcked: bool)
    requires dest == 255 || (Lookup(t, dest).Via? && acked)
    ensures AfterRoute(t, me, dest, source, from, acked, reportAcked) == t
  {
  }

  lemma RoomAfterDelete(t: Table, dest: nat)
    requires WellFormed(t) && Lookup(t, dest).Via?
    ensures Routes(DeleteTo(t, dest)) != DeleteTo(t, dest)
  {
    hide FindDest, FindInvalid, DeleteTo, MapDelete;
    LookupRefines(t, dest);
    DeleteRefines(t, dest);
    assert |MapDelete(Routes(t), dest)| < |t| by { MapDeleteShrinks(t, dest); }
  }

  lemma MapDeleteShrinks(t: Table, dest: nat)
    requires WellFormed(t) && FindDest(Routes(t), dest) < |Routes(t)|
    ensures |MapDelete(Routes(t), dest)| == |Routes(t)| - 1
  {
  }

  // ---------------------------------------------------------------- the object

  class RhMesh {
    const router: RhRouter
    const maxMessageLength: nat
    const tmpMessage: array<nat>

    ghost predicate Ready()
      reads this, router
    {
      router.Ready() && tmpMessage.Length == 250 && maxMessageLength < 255
    }

    constructor (address: nat, maxHops: nat, maxMessageLength: nat)
      requires maxMessageLength < 255
      ensures Ready() && fresh(router) && fresh(router.routes) && fresh(tmpMessage)
      ensures Routes(router.routes[..]) == [] && router.thisAddress == address
    {
      router := new RhRouter(address, maxHops);
      this.maxMessageLength := maxMessageLength;
      tmpMessage := new nat[250](_ => 0);
    }

    function Bounds(): Limits { Limits(router.maxHops, if maxMessageLength < 8 then 0 else maxMessageLength - 8) }

    /** Whether this node is among the `numRoutes` nodes listed in the message. */
    method MentionsUs(numRoutes: nat) returns (found: bool)
      requires Ready() && 3 + numRoutes <= tmpMessage.Length
      ensures found <==> router.thisAddress in tmpMessage[3..3 + numRoutes]
    {
      var i := 0;
      while i < numRoutes
        invariant 0 <= i <= numRoutes && router.thisAddress !in tmpMessage[3..3 + i]
      {
        if tmpMessage[3 + i] == router.thisAddress { return true; }
        i := i + 1;
      }
      return false;
    }

    /** Records the routes back to the originator and to the nodes listed in the message. */
    method RecordRoutes(numRoutes: nat, source: nat, from: nat)
      requires Ready() && 3 + numRoutes <= tmpMessage.Length
      modifies router.routes
      ensures router.routes[..] == AddAll(old(router.routes[..]), [source] + tmpMessage[3..3 + numRoutes], from)
    {
      hide Add;
      ghost var t, visited := router.routes[..], tmpMessage[3..3 + numRoutes];
      router.AddRouteTo(source, from, Valid);
      var i := 0;
      assert visited[0..] == visited == ([source] + visited)[1..];
      while i < numRoutes
        invariant 0 <= i <= numRoutes && tmpMessage[3..3 + numRoutes] == visited
        invariant AddAll(router.routes[..], visited[i..], from) == AddAll(t, [source] + visited, from)
      {
        assert visited[i] == tmpMessage[3 + i] && visited[i..][1..] == visited[i + 1..];
        router.AddRouteTo(tmpMessage[3 + i], from, Valid);
        i := i + 1;
      }
    }

    /** The part of `recvfromAck` that deals with a discovery request of `len` octets: the reaction, and the
        length of the message that goes out with it. */
    method HandleRequest(len: nat, source: nat, from: nat) returns (out: Reaction, outLen: nat)
      requires Ready() && 3 <= len <= maxMessageLength - ROUTED_HEADER
      requires tmpMessage[0] == 1 && tmpMessage[1] == 1
      modifies tmpMessage, router.routes
      ensures
        var r := Decode(old(tmpMessage[..len]), source, from);
        && out == React(router.thisAddress, Bounds(), r)
        && router.routes[..] == Learn(old(router.routes[..]), router.thisAddress, r)
      ensures out.Rebroadcast? <==>
        && source != router.thisAddress && router.thisAddress !in old(tmpMessage[2..len])
        && len < router.maxHops + 3 && len + 6 <= maxMessageLength
      ensures out.Respond? ==> outLen == len && tmpMessage[..len] == [2] + old(tmpMessage[1..len])
      ensures out.Rebroadcast? ==> outLen == len + 1 && tmpMessage[..len + 1] == Encode(out.req)
    {
      hide AddAll;
      outLen := len;
      if source == router.thisAddress { return Ignore, len; }
      var numRoutes := len - 3;
      assert tmpMessage[..len][3..] == tmpMessage[3..3 + numRoutes];
      var mentioned := MentionsUs(numRoutes);
      if mentioned { return Ignore, len; }
      RecordRoutes(numRoutes, source, from);
      if tmpMessage[1] == 1 && tmpMessage[2] == router.thisAddress {
        tmpMessage[0] := DISCOVERY_RESPONSE;
        return Respond, len;
      }
      if numRoutes < router.maxHops {
        tmpMessage[3 + numRoutes] := router.thisAddress;
        assert tmpMessage[..len + 1] == old(tmpMessage[..len]) + [router.thisAddress];
        if len + 1 + ROUTED_HEADER > maxMessageLength { return Ignore, len; }
        return Rebroadcast(Request(source, tmpMessage[2], tmpMessage[3..len + 1], router.thisAddress)), len + 1;
      }
      return Ignore, len;
    }

    /** `route`, given whether the next hop acknowledges the message and, after a failure, the report. */
    method PassOn(dest: nat, source: nat, from: nat, acked: bool, reportAcked: bool) returns (ok: bool, reportTo: Route)
      requires Ready()
      modifies router.routes
      ensures ok <==> dest == 255 || (Lookup(old(router.routes[..]), dest).Via? && acked)
      ensures router.routes[..] ==
        AfterRoute(old(router.routes[..]), router.thisAddress, dest, source, from, acked, reportAcked)
      ensures reportTo == if ok || source == router.thisAddress then NoRoute
                          else Lookup(Reporting(old(router.routes[..]), dest, source, from), source)
      ensures !ok && source != router.thisAddress && WellFormed(old(router.routes[..])) ==> reportTo == Via(from, Valid)
    {
      ghost var t := router.routes[..];
      if WellFormed(t) { ReportHasRoute(t, dest, source, from); }
      hide Add, DeleteTo, Lookup, WellFormed;
      reportTo := NoRoute;
      ok := true;
      if dest != BROADCAST_ADDRESS {
        var way := router.GetRouteTo(dest);
        ok := way.Via? && acked;
      }
      if !ok {
        var _ := router.DeleteRouteTo(dest);
        if source != router.thisAddress {
          router.AddRouteTo(source, from, Valid);
          reportTo := router.GetRouteTo(source);
          if !reportAcked { var _ := router.DeleteRouteTo(source); }
        }
      }
    }
  }
}
