/**
 * The port-forward multiplexer: one handler accepts local connections, the other connects to
 * destinations, and both route bytes by socket id.
 */
module PortForward {
  import opened Bytes
  import opened SocketIo

  datatype Destination = Destination(name: string, port: int)

  datatype Msg =
    | Request(fd: int, destination: Destination)
    | Response(fd: int, socketId: Option<int>, error: bool)
    | Data(id: int, buffer: bytes)
    | Closed(id: int)

  /** A handler's fields as a value. */
  datatype HandlerState = HandlerState(
    serverSide: bool,
    nextFd: int,
    nextId: int,
    pending: map<int, SocketHandle>,
    active: map<int, SocketHandle>)

  /**
   * What a call does besides changing the handler: packets sent, the destination Connect is asked
   * for, bytes written, handles closed.
   */
  datatype Effect = Effect(
    handler: HandlerState,
    out: seq<Msg>,
    dial: Option<Destination>,
    write: Option<(SocketHandle, bytes)>,
    close: Option<SocketHandle>)

  function Quietly(h: HandlerState): Effect {
    Effect(h, [], None, None, None)
  }

  /** HandlePacket; `connected` is what Connect returns if the packet makes the handler call it. */
  function HandleMsg(h: HandlerState, m: Msg, connected: SocketHandle): Effect {
    match m
    case Response(fd, id, error) =>
      if id.None? || fd !in h.pending then Quietly(h)
      else if error then
        Effect(h.(pending := h.pending - {fd}), [], None, None, Some(h.pending[fd]))
      else
        Quietly(h.(active := h.active[id.value := h.pending[fd]], pending := h.pending - {fd}))
    case Request(fd, destination) =>
      if !h.serverSide then Quietly(h)
      else if connected == INVALID_SOCKET then
        Effect(h, [Response(fd, None, true)], Some(destination), None, None)
      else
        Effect(h.(nextId := h.nextId + 1, active := h.active[h.nextId := connected]),
               [Response(fd, Some(h.nextId), false)], Some(destination), None, None)
    case Data(id, buffer) =>
      if id !in h.active || buffer == [] then Quietly(h)
      else Effect(h, [], None, Some((h.active[id], buffer)), None)
    case Closed(id) =>
      if id !in h.active then Quietly(h)
      else Effect(h.(active := h.active - {id}), [], None, None, Some(h.active[id]))
  }

  /** What one look at a socket yields: nothing, bytes, or an end (closed or failed). */
  datatype Poll = NotReady | Chunk(data: bytes) | Ended

  const READ_SIZE: nat := 4096

  /** One round of the loops over active sockets; the entry stays even when the socket ends. */
  function PollOne(h: HandlerState, id: int, p: Poll): Effect
    requires id in h.active
  {
    match p
    case NotReady => Quietly(h)
    case Chunk(data) => Effect(h, [Data(id, data)], None, None, None)
    case Ended => Effect(h, [Closed(id)], None, None, Some(h.active[id]))
  }

  function AcceptOne(h: HandlerState, accepted: SocketHandle, destination: Destination): Effect {
    Effect(h.(nextFd := h.nextFd + 1, pending := h.pending[h.nextFd := accepted]),
           [Request(h.nextFd, destination)], None, None, None)
  }

  /** The packets of one pass over active sockets in a given order. */
  function PollAll(h: HandlerState, order: seq<int>, polls: map<SocketHandle, Poll>): seq<Msg>
    requires forall id :: id in order ==> id in h.active
  {
    if order == [] then []
    else
      var n := |order| - 1;
      PollAll(h, order[..n], polls) + PollOne(h, order[n], PollOf(h, order[n], polls)).out
  }

  /** The handles the same pass closes. */
  function EndedAll(h: HandlerState, order: seq<int>, polls: map<SocketHandle, Poll>): seq<SocketHandle>
    requires forall id :: id in order ==> id in h.active
  {
    if order == [] then []
    else
      var n := |order| - 1;
      EndedAll(h, order[..n], polls) + if PollOf(h, order[n], polls).Ended? then [h.active[order[n]]] else []
  }

  function PollOf(h: HandlerState, id: int, polls: map<SocketHandle, Poll>): Poll
    requires id in h.active
  {
    if h.active[id] in polls then polls[h.active[id]] else NotReady
  }

  /** A request to forward; an endpoint's unset name is the empty one. */
  datatype ForwardRequest = ForwardRequest(source: Option<Destination>, destination: Option<Destination>)

  datatype Listener = Listener(socket: SocketHandle, destination: Destination)

  /** The accepts of one pass over the listeners, from the handler state it starts in. */
  function AcceptAll(h: HandlerState, listeners: seq<Listener>, accepts: map<SocketHandle, SocketHandle>)
    : (HandlerState, seq<Msg>)
  {
    if listeners == [] then (h, [])
    else
      var l := listeners[|listeners| - 1];
      var (h1, out) := AcceptAll(h, listeners[..|listeners| - 1], accepts);
      if l.socket !in accepts || accepts[l.socket] == INVALID_SOCKET then (h1, out)
      else
        var e := AcceptOne(h1, accepts[l.socket], l.destination);
        (e.handler, out + e.out)
  }

  /**
   * An answer settles the request it names, if that is still pending: with an id the handle becomes
   * active under it, with an error it is closed. A client connects to nothing.
   */
  lemma {:induction false} AnswersSettleRequests(h: HandlerState, fd: int, id: int, connected: SocketHandle)
    ensures var ok, bad := HandleMsg(h, Response(fd, Some(id), false), connected),
                           HandleMsg(h, Response(fd, Some(id), true), connected);
            if fd !in h.pending then ok == bad == Quietly(h)
            else
              && ok.handler.active == h.active[id := h.pending[fd]] && ok.close == None
              && bad.handler.active == h.active && bad.close == Some(h.pending[fd])
              && ok.handler.pending == bad.handler.pending == map f | f in h.pending && f != fd :: h.pending[f]
    ensures HandleMsg(h, Response(fd, None, true), connected) == Quietly(h)
    ensures forall d :: !h.serverSide ==> HandleMsg(h, Request(fd, d), connected) == Quietly(h)
  {
  }

  /** The listeners that yield a connection in a pass, in order, each with its handle. */
  function Yielding(listeners: seq<Listener>, accepts: map<SocketHandle, SocketHandle>)
    : seq<(SocketHandle, Destination)>
  {
    if listeners == [] then []
    else
      var l := listeners[0];
      (if l.socket in accepts && accepts[l.socket] != INVALID_SOCKET then [(accepts[l.socket], l.destination)] else [])
      + Yielding(listeners[1..], accepts)
  }

  lemma {:induction false} YieldingSnoc(
    listeners: seq<Listener>, l: Listener, accepts: map<SocketHandle, SocketHandle>)
    ensures Yielding(listeners + [l], accepts) == Yielding(listeners, accepts) + Yielding([l], accepts)
  {
    if listeners == [] {
      assert listeners + [l] == [l];
    } else {
      assert (listeners + [l])[1..] == listeners[1..] + [l];
      YieldingSnoc(listeners[1..], l, accepts);
    }
  }

  /**
   * A pass over the listeners asks, under consecutive fresh numbers, for the destination of each
   * listener that yields a handle, and keeps that handle pending under that number.
   */
  lemma {:induction false} RequestsNameTheirListener(
    h: HandlerState, listeners: seq<Listener>, accepts: map<SocketHandle, SocketHandle>)
    ensures var (h', out) := AcceptAll(h, listeners, accepts);
            var yielding := Yielding(listeners, accepts);
            && |out| == |yielding| && h'.nextFd == h.nextFd + |yielding|
            && (forall i :: 0 <= i < |out| ==>
                  && out[i] == Request(h.nextFd + i, yielding[i].1)
                  && h.nextFd + i in h'.pending && h'.pending[h.nextFd + i] == yielding[i].0)
            && (forall fd :: fd < h.nextFd ==> (fd in h'.pending <==> fd in h.pending)
                                               && (fd in h.pending ==> h'.pending[fd] == h.pending[fd]))
            && h'.active == h.active && h'.nextId == h.nextId && h'.serverSide == h.serverSide
  {
    if listeners != [] {
      var n := |listeners| - 1;
      RequestsNameTheirListener(h, listeners[..n], accepts);
      YieldingSnoc(listeners[..n], listeners[n], accepts);
      assert listeners == listeners[..n] + [listeners[n]];
      var l := listeners[n];
      var last := Yielding([l], accepts);
      assert [l][1..] == [];
      assert last == if l.socket in accepts && accepts[l.socket] != INVALID_SOCKET
                     then [(accepts[l.socket], l.destination)] else [];
      var before, yielding := Yielding(listeners[..n], accepts), Yielding(listeners, accepts);
      assert forall i :: 0 <= i < |before| ==> yielding[i] == before[i];
    }
  }

  class PortForwardHandler {
    const io: SocketHandler
    const serverSide: bool
    var nextClientFd: int
    var nextSocketId: int
    var listeners: seq<Listener>
    var pendingClients: map<int, SocketHandle>
    var activeSockets: map<int, SocketHandle>

    ghost function State(): HandlerState
      reads this
    {
      HandlerState(serverSide, nextClientFd, nextSocketId, pendingClients, activeSockets)
    }

    constructor (io: SocketHandler, serverSide: bool)
      ensures State() == HandlerState(serverSide, 1, 1, map[], map[])
      ensures this.io == io && listeners == []
    {
      this.io := io;
      this.serverSide := serverSide;
      nextClientFd, nextSocketId, listeners := 1, 1, [];
      pendingClients, activeSockets := map[], map[];
    }

    /**
     * `bound` is what Listen is asked for, None if it is not called, and `listening` the handle
     * it returns, INVALID_SOCKET on failure.
     */
    method AddForwardRequest(request: ForwardRequest, listening: SocketHandle) returns (bound: Option<Destination>)
      modifies this`listeners
      ensures bound.Some? <==> !serverSide && request.source.Some? && request.destination.Some?
      ensures bound.Some? ==>
                var source := request.source.value;
                bound.value == Destination(if source.name == "" then "localhost" else source.name, source.port)
      ensures listeners == old(listeners)
                           + if bound.None? || listening == INVALID_SOCKET then []
                             else [Listener(listening, request.destination.value)]
    {
      if serverSide || request.source.None? || request.destination.None? {
        return None;
      }
      var source := request.source.value;
      bound := Some(Destination(if source.name == "" then "localhost" else source.name, source.port));
      if listening == INVALID_SOCKET {
        return;
      }
      listeners := listeners + [Listener(listening, request.destination.value)];
    }

    /**
     * Routes one packet. Bytes for a known id go to its handle in one write, whose result the
     * program ignores, so that a prefix of them reaches the socket.
     */
    method HandlePacket(m: Msg, connected: SocketHandle) returns (out: seq<Msg>, dialed: Option<Destination>)
      modifies this`nextSocketId, this`pendingClients, this`activeSockets, io
      ensures var e := HandleMsg(old(State()), m, connected);
              && State() == e.handler && out == e.out && dialed == e.dial
              && io.closed == old(io.closed) + (if e.close.Some? then [e.close.value] else [])
              && match e.write
                 case None => io.sent == old(io.sent)
                 case Some((target, data)) =>
                   && io.OnlySentChanged(target, old(io.sent))
                   && exists n :: 0 <= n <= |data| && io.Sent(target) == old(io.Sent(target)) + data[..n]
      ensures io.inbox == old(io.inbox)
    {
      out, dialed := [], None;
      match m {
        case Response(fd, id, error) =>
          if id.None? || fd !in pendingClients {
            return;
          }
          if error {
            io.Close(pendingClients[fd]);
            pendingClients := pendingClients - {fd};
            return;
          }
          activeSockets := activeSockets[id.value := pendingClients[fd]];
          pendingClients := pendingClients - {fd};
        case Request(fd, destination) =>
          if !serverSide {
            return;
          }
          dialed := Some(destination);
          if connected == INVALID_SOCKET {
            out := [Response(fd, None, true)];
          } else {
            var socketId := nextSocketId;
            nextSocketId := nextSocketId + 1;
            activeSockets := activeSockets[socketId := connected];
            out := [Response(fd, Some(socketId), false)];
          }
        case Data(id, buffer) =>
          if id !in activeSockets || buffer == [] {
            return;
          }
          var target := activeSockets[id];
          ghost var before := io.Sent(target);
          var rc := io.Write(target, buffer);
          assert io.Sent(target) == before + buffer[..if rc > 0 then rc else 0];
        case Closed(id) =>
          if id !in activeSockets {
            return;
          }
          io.Close(activeSockets[id]);
          activeSockets := activeSockets - {id};
      }
    }

    /** `order` is the order in which the hash table of active sockets is iterated. */
    ghost predicate Iterates(order: seq<int>)
      reads this`activeSockets
    {
      && (forall i :: 0 <= i < |order| ==> order[i] in activeSockets)
      && (forall id :: id in activeSockets ==> id in order)
      && (forall i, j :: 0 <= i < j < |order| ==> order[i] != order[j])
    }

    /** The loop both roles run over their active sockets. */
    method PollSockets(order: seq<int>, polls: map<SocketHandle, Poll>) returns (out: seq<Msg>)
      requires Iterates(order)
      modifies io`closed
      ensures out == PollAll(State(), order, polls)
      ensures io.closed == old(io.closed) + EndedAll(State(), order, polls)
    {
      out := [];
      var i := 0;
      while i < |order|
        invariant 0 <= i <= |order|
        invariant out == PollAll(State(), order[..i], polls)
        invariant io.closed == old(io.closed) + EndedAll(State(), order[..i], polls)
      {
        var id := order[i];
        var handle := activeSockets[id];
        assert order[..i + 1][..i] == order[..i];
        if handle in polls {
          match polls[handle] {
            case NotReady =>
            case Chunk(data) => out := out + [Data(id, data)];
            case Ended =>
              out := out + [Closed(id)];
              io.Close(handle);
          }
        }
        i := i + 1;
      }
      assert order[..|order|] == order;
    }

    /** Accepts on every listener that has a connection waiting, then polls the active sockets. */
    method HandleClientData(
      accepts: map<SocketHandle, SocketHandle>, order: seq<int>, polls: map<SocketHandle, Poll>)
      returns (out: seq<Msg>)
      requires Iterates(order)
      modifies this`nextClientFd, this`pendingClients, io`closed
      ensures var (h, requests) := AcceptAll(old(State()), listeners, accepts);
              && State() == h
              && activeSockets == old(activeSockets)
              && out == requests + PollAll(h, order, polls)
              && io.closed == old(io.closed) + EndedAll(h, order, polls)
    {
      out := [];
      var i := 0;
      while i < |listeners|
        invariant 0 <= i <= |listeners|
        invariant activeSockets == old(activeSockets) && io.closed == old(io.closed)
        invariant (State(), out) == AcceptAll(old(State()), listeners[..i], accepts)
      {
        var l := listeners[i];
        assert listeners[..i + 1][..i] == listeners[..i];
        if l.socket in accepts && accepts[l.socket] != INVALID_SOCKET {
          var fd := nextClientFd;
          nextClientFd := nextClientFd + 1;
          pendingClients := pendingClients[fd := accepts[l.socket]];
          out := out + [Request(fd, l.destination)];
        }
        i := i + 1;
      }
      assert listeners[..|listeners|] == listeners;
      var data := PollSockets(order, polls);
      out := out + data;
    }
  }
}
