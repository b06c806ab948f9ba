/** The handler's methods are runs of the tunnel system's steps. */
module TunnelMethods {
  import opened Bytes
  import opened SocketIo
  import opened PortForward
  import opened TunnelSystem

  lemma {:induction false} ExecSnoc(s: Sys, steps: seq<Step>, st: Step)
    requires Exec(s, steps).Some?
    ensures Exec(s, steps + [st]) == Next(Exec(s, steps).value, st)
    decreases |steps|
  {
    hide Next;
    if steps == [] {
      assert steps + [st] == [st] && [st][1..] == [];
    } else {
      assert (steps + [st])[1..] == steps[1..] + [st];
      ExecSnoc(Next(s, steps[0]).value, steps[1..], st);
    }
  }

  /** The steps of one pass over the active sockets; a socket that is not ready takes none. */
  function PollSteps(h: HandlerState, order: seq<int>, polls: map<SocketHandle, Poll>): seq<Step>
    requires forall id :: id in order ==> id in h.active
  {
    if order == [] then []
    else
      var id := order[|order| - 1];
      var p := PollOf(h, id, polls);
      PollSteps(h, order[..|order| - 1], polls)
      + if p.NotReady? then [] else [if h.serverSide then PollServer(id, p) else PollClient(id, p)]
  }

  /** A pass visits each active socket at most once, and closed handles are not ready. */
  ghost predicate Pass(e: End, order: seq<int>, polls: map<SocketHandle, Poll>) {
    && (forall id :: id in order ==> id in e.handler.active)
    && (forall i, j :: 0 <= i < j < |order| ==> e.handler.active[order[i]] != e.handler.active[order[j]])
    && (forall id :: id in order && !PollOf(e.handler, id, polls).NotReady? ==>
          CanPoll(e, id, PollOf(e.handler, id, polls)))
  }

  lemma {:induction false} EndedAreVisited(h: HandlerState, order: seq<int>, polls: map<SocketHandle, Poll>)
    requires forall id :: id in order ==> id in h.active
    ensures forall x :: x in EndedAll(h, order, polls) ==> exists i :: 0 <= i < |order| && h.active[order[i]] == x
  {
    if order != [] {
      var n := |order| - 1;
      EndedAreVisited(h, order[..n], polls);
      forall x | x in EndedAll(h, order, polls)
        ensures exists i :: 0 <= i < |order| && h.active[order[i]] == x
      {
        if x in EndedAll(h, order[..n], polls) {
          var i :| 0 <= i < n && h.active[order[..n][i]] == x;
          assert h.active[order[i]] == x;
        } else {
          assert h.active[order[n]] == x;
        }
      }
    }
  }

  function Handles(handles: seq<SocketHandle>): set<SocketHandle> {
    set x | x in handles
  }

  lemma {:induction false} HandlesCat(a: seq<SocketHandle>, b: seq<SocketHandle>)
    ensures Handles(a + b) == Handles(a) + Handles(b)
  {
  }

  /** The last poll of a pass, in the state the earlier ones lead to. */
  lemma {:induction false} LastPoll(e: End, e1: End, order: seq<int>, polls: map<SocketHandle, Poll>)
    requires order != [] && Pass(e, order, polls)
    requires e1.handler == e.handler
    requires e1.closed == e.closed + Handles(EndedAll(e.handler, order[..|order| - 1], polls))
    ensures var id := order[|order| - 1];
            var p := PollOf(e.handler, id, polls);
            && (!p.NotReady? ==> CanPoll(e1, id, p))
            && (p.NotReady? ==> Polled(e1, id, p) == e1)
            && Polled(e1, id, p).closed == e.closed + Handles(EndedAll(e.handler, order, polls))
            && Polled(e1, id, p).handler == e.handler && Polled(e1, id, p).handed == e1.handed
  {
    var h, n := e.handler, |order| - 1;
    EndedAreVisited(h, order[..n], polls);
    var ended, last := EndedAll(h, order[..n], polls), EndedAll(h, order, polls)[|EndedAll(h, order[..n], polls)|..];
    assert EndedAll(h, order, polls) == ended + last;
    HandlesCat(ended, last);
  }

  /** What a client's pass, as PollSockets performs it, makes of a state. */
  ghost predicate ClientPassed(s: Sys, s': Sys, order: seq<int>, polls: map<SocketHandle, Poll>)
    requires Pass(s.client, order, polls)
  {
    && s' == s.(client := s'.client, up := s.up + PollAll(s.client.handler, order, polls))
    && s'.client.handler == s.client.handler && s'.client.handed == s.client.handed
    && s'.client.closed == s.client.closed + Handles(EndedAll(s.client.handler, order, polls))
  }

  lemma {:induction false} LastClientPoll(s: Sys, s1: Sys, order: seq<int>, polls: map<SocketHandle, Poll>)
    requires order != [] && Pass(s.client, order, polls)
    requires ClientPassed(s, s1, order[..|order| - 1], polls)
    ensures var id := order[|order| - 1];
            var p := PollOf(s.client.handler, id, polls);
            if p.NotReady? then ClientPassed(s, s1, order, polls)
            else DoPollClient(s1, id, p).Some? && ClientPassed(s, DoPollClient(s1, id, p).value, order, polls)
  {
    hide Handles, EndedAll, CanPoll, Polled;
    LastPoll(s.client, s1.client, order, polls);
  }

  /** The pass is a run of one poll for each socket that is ready. */
  lemma {:induction false} ClientPassIsSteps(s: Sys, order: seq<int>, polls: map<SocketHandle, Poll>)
    requires !s.client.handler.serverSide && Pass(s.client, order, polls)
    ensures var end := Exec(s, PollSteps(s.client.handler, order, polls));
            end.Some? && ClientPassed(s, end.value, order, polls)
  {
    if order != [] {
      hide ClientPassed, DoPollClient, PollOf;
      var h, n := s.client.handler, |order| - 1;
      ClientPassIsSteps(s, order[..n], polls);
      var before := PollSteps(h, order[..n], polls);
      LastClientPoll(s, Exec(s, before).value, order, polls);
      var p := PollOf(h, order[n], polls);
      if p.NotReady? {
        assert PollSteps(h, order, polls) == before;
      } else {
        ExecSnoc(s, before, PollClient(order[n], p));
      }
    }
  }

  /** What a server's pass, as PollSockets performs it, makes of a state. */
  ghost predicate ServerPassed(s: Sys, s': Sys, order: seq<int>, polls: map<SocketHandle, Poll>)
    requires Pass(s.server, order, polls)
  {
    && s' == s.(server := s'.server, down := s.down + PollAll(s.server.handler, order, polls))
    && s'.server.handler == s.server.handler && s'.server.handed == s.server.handed
    && s'.server.closed == s.server.closed + Handles(EndedAll(s.server.handler, order, polls))
  }

  lemma {:induction false} LastServerPoll(s: Sys, s1: Sys, order: seq<int>, polls: map<SocketHandle, Poll>)
    requires order != [] && Pass(s.server, order, polls)
    requires ServerPassed(s, s1, order[..|order| - 1], polls)
    ensures var id := order[|order| - 1];
            var p := PollOf(s.server.handler, id, polls);
            if p.NotReady? then ServerPassed(s, s1, order, polls)
            else DoPollServer(s1, id, p).Some? && ServerPassed(s, DoPollServer(s1, id, p).value, order, polls)
  {
    hide Handles, EndedAll, CanPoll, Polled;
    LastPoll(s.server, s1.server, order, polls);
  }

  /** The pass is a run of one poll for each socket that is ready. */
  lemma {:induction false} ServerPassIsSteps(s: Sys, order: seq<int>, polls: map<SocketHandle, Poll>)
    requires s.server.handler.serverSide && Pass(s.server, order, polls)
    ensures var end := Exec(s, PollSteps(s.server.handler, order, polls));
            end.Some? && ServerPassed(s, end.value, order, polls)
  {
    if order != [] {
      hide ServerPassed, DoPollServer, PollOf;
      var h, n := s.server.handler, |order| - 1;
      ServerPassIsSteps(s, order[..n], polls);
      var before := PollSteps(h, order[..n], polls);
      LastServerPoll(s, Exec(s, before).value, order, polls);
      var p := PollOf(h, order[n], polls);
      if p.NotReady? {
        assert PollSteps(h, order, polls) == before;
      } else {
        ExecSnoc(s, before, PollServer(order[n], p));
      }
    }
  }

  /** The handle a listener yields in a pass, if any. */
  function Yield(l: Listener, accepts: map<SocketHandle, SocketHandle>): Option<SocketHandle> {
    if l.socket !in accepts || accepts[l.socket] == INVALID_SOCKET then None else Some(accepts[l.socket])
  }

  function AcceptSteps(listeners: seq<Listener>, accepts: map<SocketHandle, SocketHandle>): seq<Step> {
    if listeners == [] then []
    else
      var l := listeners[|listeners| - 1];
      AcceptSteps(listeners[..|listeners| - 1], accepts)
      + match Yield(l, accepts) { case None => [] case Some(handle) => [Accept(handle, l.destination)] }
  }

  /** The operating system hands out handles it has not handed out before. */
  ghost predicate Fresh(used: set<SocketHandle>, listeners: seq<Listener>, accepts: map<SocketHandle, SocketHandle>) {
    && (forall i :: 0 <= i < |listeners| && Yield(listeners[i], accepts).Some? ==>
          Yield(listeners[i], accepts).value !in used)
    && (forall i, j :: 0 <= i < j < |listeners| && Yield(listeners[i], accepts).Some? ==>
          Yield(listeners[i], accepts) != Yield(listeners[j], accepts))
  }

  /** Every handle known at the end was known at the start or came from a listener. */
  ghost predicate Accounted(
    used: set<SocketHandle>, used': set<SocketHandle>, listeners: seq<Listener>,
    accepts: map<SocketHandle, SocketHandle>)
  {
    forall x :: x in used' ==>
      x in used || exists i :: 0 <= i < |listeners| && Yield(listeners[i], accepts) == Some(x)
  }

  lemma {:induction false} FreshAgain(
    used: set<SocketHandle>, used': set<SocketHandle>, listeners: seq<Listener>,
    accepts: map<SocketHandle, SocketHandle>)
    requires listeners != [] && Fresh(used, listeners, accepts)
    requires Accounted(used, used', listeners[..|listeners| - 1], accepts)
    ensures var y := Yield(listeners[|listeners| - 1], accepts);
            && Accounted(used, used' + (if y.Some? then {y.value} else {}), listeners, accepts)
            && (y.Some? ==> y.value !in used')
  {
    var n := |listeners| - 1;
    var y := Yield(listeners[n], accepts);
    assert forall i :: 0 <= i < n ==> listeners[..n][i] == listeners[i];
    assert Accounted(used, used', listeners, accepts);
    assert y.Some? ==> Yield(listeners[n], accepts) == Some(y.value);
  }

  lemma {:induction false} AcceptsAreSteps(s: Sys, listeners: seq<Listener>, accepts: map<SocketHandle, SocketHandle>)
    requires Fresh(s.client.used, listeners, accepts)
    ensures var (h, out) := AcceptAll(s.client.handler, listeners, accepts);
            var end := Exec(s, AcceptSteps(listeners, accepts));
            && end.Some?
            && end.value.client.handler == h && end.value.up == s.up + out
            && end.value.server == s.server && end.value.down == s.down
            && end.value.client == s.client.(handler := h, used := end.value.client.used)
            && Accounted(s.client.used, end.value.client.used, listeners, accepts)
  {
    if listeners != [] {
      var n := |listeners| - 1;
      var l := listeners[n];
      AcceptsAreSteps(s, listeners[..n], accepts);
      var before := AcceptSteps(listeners[..n], accepts);
      var s1 := Exec(s, before).value;
      FreshAgain(s.client.used, s1.client.used, listeners, accepts);
      hide Exec, Accounted, Fresh;
      if Yield(l, accepts).Some? {
        ExecSnoc(s, before, Accept(Yield(l, accepts).value, l.destination));
      } else {
        assert AcceptSteps(listeners, accepts) == before;
        assert s1.client.used + {} == s1.client.used;
      }
    }
  }
}
