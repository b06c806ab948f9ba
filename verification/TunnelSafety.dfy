/** What the invariant of the tunnel system promises on every run. */
module TunnelSafety {
  import opened Bytes
  import opened SocketIo
  import opened PortForward
  import opened TunnelSystem
  import opened TunnelInvariant

  /** The state a run ends in. */
  ghost predicate Reachable(s: Sys) {
    exists steps: seq<Step> :: Exec(Initial(), steps) == Some(s)
  }

  lemma {:induction false} ReachableInv(s: Sys)
    requires Reachable(s)
    ensures Inv(s)
  {
    var steps: seq<Step> :| Exec(Initial(), steps) == Some(s);
    Reached(steps);
  }

  /** The handle each end has behind an id, if any, is the one of the pair. */
  lemma {:induction false} IdsPairHandles(s: Sys, id: int)
    requires Reachable(s) && (id in s.client.handler.active || id in s.server.handler.active)
    ensures id in s.connected && id in s.fdOf && s.fdOf[id] in s.accepted
    ensures id in s.client.handler.active ==> s.client.handler.active[id] == s.accepted[s.fdOf[id]]
    ensures id in s.server.handler.active ==> s.server.handler.active[id] == s.connected[id]
  {
    ReachableInv(s);
    hide Share;
    assert IdInvOf(s, id);
  }

  /** No handle and no request stands behind two ids. */
  lemma {:induction false} PairsAreOneToOne(s: Sys, id: int, other: int)
    requires Reachable(s) && id in s.connected && other in s.connected && id != other
    ensures id in s.fdOf && other in s.fdOf && s.fdOf[id] != s.fdOf[other]
    ensures s.fdOf[id] in s.accepted && s.fdOf[other] in s.accepted
    ensures s.accepted[s.fdOf[id]] != s.accepted[s.fdOf[other]]
    ensures s.connected[id] != s.connected[other]
  {
    ReachableInv(s);
  }

  /** A packet that reaches an end finds the id it names there, or with Response the request. */
  lemma {:induction false} NothingIsDropped(s: Sys)
    requires Reachable(s)
    ensures s.up != [] && (s.up[0].Data? || s.up[0].Closed?) ==> s.up[0].id in s.server.handler.active
    ensures s.down != [] && (s.down[0].Data? || s.down[0].Closed?) ==> s.down[0].id in s.client.handler.active
    ensures s.down != [] && s.down[0].Response? && !s.down[0].error ==>
              s.down[0].socketId.Some? && s.down[0].fd in s.client.handler.pending
  {
    ReachableInv(s);
    if s.up != [] && (s.up[0].Data? || s.up[0].Closed?) {
      assert UpMsgInv(s, s.up[0]);
      hide Inv, DoDeliverUp;
      UpTarget(s);
    }
    if s.down != [] {
      assert DownMsgInv(s, s.down[0]);
      hide Inv;
      match s.down[0]
      case Data(id, _) => RouteDownId(s, id);
      case Closed(id) => RouteDownId(s, id);
      case Response(_, id, _) => if id.Some? { RouteDownId(s, id.value); }
      case Request(_, _) =>
    }
  }

  /** The bytes of one id under way in a channel. */
  function InFlight(q: seq<Msg>, id: int): bytes {
    if q == [] then []
    else (if q[0].Data? && q[0].id == id then q[0].buffer else []) + InFlight(q[1..], id)
  }

  lemma {:induction false} FlightOfShare(q: seq<Msg>, id: int)
    ensures Flight(Share(q, id)) == InFlight(q, id)
  {
    if q != [] {
      FlightOfShare(q[1..], id);
      var items, rest := ItemOf(q[0], id), Share(q[1..], id);
      if items == [] {
        assert [] + rest == rest;
      } else {
        assert (items + rest)[1..] == rest;
      }
    }
  }

  /**
   * In both directions and for every id, what was handed to Write at one handle, then what is
   * under way, is exactly what was read at the other.
   */
  lemma {:induction false} BytesAreConserved(s: Sys, id: int)
    requires Reachable(s) && id in s.connected
    ensures id in s.fdOf && s.fdOf[id] in s.accepted
    ensures var hc, hs := s.accepted[s.fdOf[id]], s.connected[id];
            && Log(s.client.handed, hc) + InFlight(s.down, id) == Log(s.server.read, hs)
            && Log(s.server.handed, hs) + InFlight(s.up, id) == Log(s.client.read, hc)
  {
    ReachableInv(s);
    assert IdInvOf(s, id);
    FlightOfShare(s.up, id);
    FlightOfShare(s.down, id);
  }

  /** In particular it is a prefix. */
  lemma {:induction false} HandedIsPrefixOfRead(s: Sys, id: int)
    requires Reachable(s) && id in s.connected
    ensures id in s.fdOf && s.fdOf[id] in s.accepted
    ensures Log(s.client.handed, s.accepted[s.fdOf[id]]) <= Log(s.server.read, s.connected[id])
    ensures Log(s.server.handed, s.connected[id]) <= Log(s.client.read, s.accepted[s.fdOf[id]])
  {
    BytesAreConserved(s, id);
  }

  /** No data and no end of an id comes before its registration. */
  lemma {:induction false} RegistrationComesFirst(s: Sys, id: int, i: int, j: int)
    requires Reachable(s)
    requires 0 <= i < |s.down| && 0 <= j < |s.down|
    requires s.down[i].Response? && s.down[i].socketId == Some(id)
    requires (s.down[j].Data? || s.down[j].Closed?) && s.down[j].id == id
    ensures i < j && id !in s.client.handler.active
  {
    ReachableInv(s);
    IdIsKnown(s, i);
    Orderly(s, id);
    hide Reachable, Inv, Share;
    RegistrationHeads(s.down, id, i, j);
  }

  lemma {:induction false} IdIsKnown(s: Sys, i: int)
    requires Inv(s) && 0 <= i < |s.down| && s.down[i].Response? && s.down[i].socketId.Some?
    ensures s.down[i].socketId.value in s.connected
  {
    hide IdInvOf;
    assert DownMsgInv(s, s.down[i]);
  }

  lemma {:induction false} RegistrationHeads(q: seq<Msg>, id: int, i: nat, j: nat)
    requires WellOrdered(Share(q, id)) && i < |q| && j < |q|
    requires ItemOf(q[i], id) == [Registered] && ItemOf(q[j], id) != [] && ItemOf(q[j], id) != [Registered]
    ensures i < j && Registering(Share(q, id))
  {
    hide Share;
    var a, b := InShare(q, id, i), InShare(q, id, j);
    assert Share(q, id)[a] == Registered && a == 0;
    if j < i {
      InShareOrder(q, id, j, i);
    }
  }

  lemma {:induction false} Orderly(s: Sys, id: int)
    requires Inv(s) && id in s.connected
    ensures WellOrdered(Share(s.down, id))
    ensures Registering(Share(s.down, id)) ==> id !in s.client.handler.active
  {
    hide Share;
    assert IdInvOf(s, id);
  }

  /** Where the packet at i stands in the share of its id. */
  function InShare(q: seq<Msg>, id: int, i: nat): (k: nat)
    requires i < |q| && ItemOf(q[i], id) != []
    ensures k < |Share(q, id)| && [Share(q, id)[k]] == ItemOf(q[i], id)
  {
    var items := ItemOf(q[0], id);
    if i == 0 then 0 else
      var k := InShare(q[1..], id, i - 1);
      assert (items + Share(q[1..], id))[|items| + k] == Share(q[1..], id)[k];
      |items| + k
  }

  lemma {:induction false} InShareOrder(q: seq<Msg>, id: int, i: nat, j: nat)
    requires i < j < |q| && ItemOf(q[i], id) != [] && ItemOf(q[j], id) != []
    ensures InShare(q, id, i) < InShare(q, id, j)
  {
    if i > 0 {
      InShareOrder(q[1..], id, i - 1, j - 1);
    }
  }

  /** Bytes handed to a closed end are lost to its user; on an open one nothing is lost. */
  lemma {:induction false} QuietMeansEqual(s: Sys, id: int)
    requires Reachable(s) && id in s.connected && s.up == [] && s.down == []
    ensures id in s.fdOf && s.fdOf[id] in s.accepted
    ensures Log(s.client.handed, s.accepted[s.fdOf[id]]) == Log(s.server.read, s.connected[id])
    ensures Log(s.server.handed, s.connected[id]) == Log(s.client.read, s.accepted[s.fdOf[id]])
    ensures id in s.client.handler.active || s.connected[id] in s.server.closed
    ensures id in s.server.handler.active || s.accepted[s.fdOf[id]] in s.client.closed
  {
    BytesAreConserved(s, id);
    ReachableInv(s);
    assert IdInvOf(s, id);
  }

  /** What one step hands over at the server is the oldest of what was under way for its id. */
  lemma {:induction false} DeliveryStep(s: Sys, handle: SocketHandle)
    requires Reachable(s) && DoDeliverUp(s, handle).Some? && s.up[0].Data?
    ensures var s', id := DoDeliverUp(s, handle).value, s.up[0].id;
            && id in s.connected
            && Log(s'.server.handed, s.connected[id]) == Log(s.server.handed, s.connected[id]) + s.up[0].buffer
            && forall h :: h != s.connected[id] ==> Log(s'.server.handed, h) == Log(s.server.handed, h)
  {
    ReachableInv(s);
    RouteUpId(s, handle);
  }

  /** And the same at the client. */
  lemma {:induction false} DeliveryStepDown(s: Sys)
    requires Reachable(s) && DoDeliverDown(s).Some? && s.down[0].Data?
    ensures var s', id := DoDeliverDown(s).value, s.down[0].id;
            && id in s.connected && id in s.fdOf && s.fdOf[id] in s.accepted
            && var hc := s.accepted[s.fdOf[id]];
               && Log(s'.client.handed, hc) == Log(s.client.handed, hc) + s.down[0].buffer
               && forall h :: h != hc ==> Log(s'.client.handed, h) == Log(s.client.handed, h)
  {
    ReachableInv(s);
    hide Reachable;
    RouteDownId(s, s.down[0].id);
  }

  // ---------- destinations ----------

  /** A request under way names the destination of the listener its connection came in on. */
  lemma {:induction false} RequestsKeepTheirDestination(s: Sys, i: nat)
    requires Reachable(s) && i < |s.up| && s.up[i].Request?
    ensures s.up[i].fd in s.wanted && s.up[i].destination == s.wanted[s.up[i].fd]
    ensures s.up[i].fd in s.accepted && s.up[i].fd in s.client.handler.pending
    ensures s.client.handler.pending[s.up[i].fd] == s.accepted[s.up[i].fd]
  {
    ReachableInv(s);
    assert UpMsgInv(s, s.up[i]);
  }

  /** Every tunnel was connected to the destination of the listener its other end came in on. */
  lemma {:induction false} TunnelsReachTheirDestination(s: Sys, id: int)
    requires Reachable(s) && id in s.connected
    ensures id in s.dialed && id in s.fdOf && s.fdOf[id] in s.wanted
    ensures s.dialed[id] == s.wanted[s.fdOf[id]]
  {
    ReachableInv(s);
  }

  // ---------- closing ----------

  /** An end of an id in its share of a channel is a packet in that channel. */
  lemma {:induction false} EndIsPacket(q: seq<Msg>, id: int)
    ensures Ends in Share(q, id) ==> Closed(id) in q
  {
    if q != [] && Ends in Share(q, id) {
      EndIsPacket(q[1..], id);
      if Ends in ItemOf(q[0], id) {
        assert q[0] == Closed(id);
      } else {
        assert Closed(id) in q[1..];
      }
    }
  }

  /**
   * Closing is passed on: when one end of a tunnel is closed the other is, or the packet that will
   * close it is under way; with nothing under way both are closed or neither is.
   */
  lemma {:induction false} ClosingIsPassedOn(s: Sys, id: int)
    requires Reachable(s) && id in s.connected
    ensures id in s.fdOf && s.fdOf[id] in s.accepted
    ensures var hc, hs := s.accepted[s.fdOf[id]], s.connected[id];
            && (hc in s.client.closed ==> hs in s.server.closed || Closed(id) in s.up)
            && (hs in s.server.closed ==> hc in s.client.closed || Closed(id) in s.down)
  {
    ReachableInv(s);
    assert IdInvOf(s, id);
    hide Share;
    EndIsPacket(s.up, id);
    EndIsPacket(s.down, id);
  }
}
