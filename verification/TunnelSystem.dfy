/**
 * A client-role and a server-role handler joined by two FIFO packet channels, which is what the
 * recovery protocol makes of a connection.
 */
module TunnelSystem {
  import opened Bytes
  import opened SocketIo
  import opened PortForward

  /**
   * A handler and its operating system: the handles ever made, those closed, the bytes read from
   * each handle and the bytes handed to Write for it.
   */
  datatype End = End(
    handler: HandlerState,
    used: set<SocketHandle>,
    closed: set<SocketHandle>,
    read: map<SocketHandle, bytes>,
    handed: map<SocketHandle, bytes>)

  /**
   * `up` and `down` are the packets under way. `accepted` is the handle behind each fd ever
   * issued and `wanted` where its listener leads; `fdOf` and `connected` are the request and the
   * handle behind each socket id, and `dialed` is what Connect was asked for.
   */
  datatype Sys = Sys(
    client: End,
    server: End,
    up: seq<Msg>,
    down: seq<Msg>,
    accepted: map<int, SocketHandle>,
    wanted: map<int, Destination>,
    fdOf: map<int, int>,
    connected: map<int, SocketHandle>,
    dialed: map<int, Destination>)

  datatype Step =
    | Accept(handle: SocketHandle, destination: Destination)
    | PollClient(id: int, poll: Poll)
    | PollServer(id: int, poll: Poll)
    | DeliverUp(handle: SocketHandle)
    | DeliverDown

  function Log(m: map<SocketHandle, bytes>, h: SocketHandle): bytes {
    if h in m then m[h] else []
  }

  function Append(m: map<SocketHandle, bytes>, h: SocketHandle, data: bytes): map<SocketHandle, bytes> {
    m[h := Log(m, h) + data]
  }

  function InitialEnd(serverSide: bool): End {
    End(HandlerState(serverSide, 1, 1, map[], map[]), {}, {}, map[], map[])
  }

  function Initial(): Sys {
    Sys(InitialEnd(false), InitialEnd(true), [], [], map[], map[], map[], map[], map[])
  }

  /** What an effect of the handler does to its operating system. */
  function Apply(e: End, f: Effect): End {
    End(f.handler,
        e.used,
        e.closed + (if f.close.Some? then {f.close.value} else {}),
        e.read,
        if f.write.Some? then Append(e.handed, f.write.value.0, f.write.value.1) else e.handed)
  }

  /** A closed handle is never ready, and a read returns between 1 and 4096 bytes. */
  predicate CanPoll(e: End, id: int, p: Poll) {
    && id in e.handler.active
    && e.handler.active[id] !in e.closed
    && (p.Chunk? ==> 0 < |p.data| <= READ_SIZE)
  }

  function Polled(e: End, id: int, p: Poll): End
    requires id in e.handler.active
  {
    var e' := Apply(e, PollOne(e.handler, id, p));
    if p.Chunk? then e'.(read := Append(e.read, e.handler.active[id], p.data)) else e'
  }

  function DoAccept(s: Sys, handle: SocketHandle, destination: Destination): Option<Sys> {
    if handle == INVALID_SOCKET || handle in s.client.used then None
    else
      var f := AcceptOne(s.client.handler, handle, destination);
      Some(s.(client := Apply(s.client, f).(used := s.client.used + {handle}),
              up := s.up + f.out,
              accepted := s.accepted[s.client.handler.nextFd := handle],
              wanted := s.wanted[s.client.handler.nextFd := destination]))
  }

  function DoPollClient(s: Sys, id: int, p: Poll): Option<Sys> {
    if !CanPoll(s.client, id, p) then None
    else Some(s.(client := Polled(s.client, id, p), up := s.up + PollOne(s.client.handler, id, p).out))
  }

  function DoPollServer(s: Sys, id: int, p: Poll): Option<Sys> {
    if !CanPoll(s.server, id, p) then None
    else Some(s.(server := Polled(s.server, id, p), down := s.down + PollOne(s.server.handler, id, p).out))
  }

  /** The server handles a packet; `handle` is what Connect returns should it be called. */
  function DoDeliverUp(s: Sys, handle: SocketHandle): Option<Sys> {
    if s.up == [] || handle in s.server.used then None
    else
      var m, id := s.up[0], s.server.handler.nextId;
      var f := HandleMsg(s.server.handler, m, handle);
      var s' := s.(server := Apply(s.server, f), up := s.up[1..], down := s.down + f.out);
      if m.Request? && handle != INVALID_SOCKET then
        Some(s'.(server := s'.server.(used := s.server.used + {handle}),
                 fdOf := s.fdOf[id := m.fd],
                 connected := s.connected[id := handle],
                 dialed := if f.dial.Some? then s.dialed[id := f.dial.value] else s.dialed))
      else Some(s')
  }

  function DoDeliverDown(s: Sys): Option<Sys> {
    if s.down == [] then None
    else
      var f := HandleMsg(s.client.handler, s.down[0], INVALID_SOCKET);
      Some(s.(client := Apply(s.client, f), down := s.down[1..], up := s.up + f.out))
  }

  function Next(s: Sys, st: Step): Option<Sys> {
    match st
    case Accept(handle, destination) => DoAccept(s, handle, destination)
    case PollClient(id, p) => DoPollClient(s, id, p)
    case PollServer(id, p) => DoPollServer(s, id, p)
    case DeliverUp(handle) => DoDeliverUp(s, handle)
    case DeliverDown => DoDeliverDown(s)
  }

  function Exec(s: Sys, steps: seq<Step>): Option<Sys>
    decreases |steps|
  {
    if steps == [] then Some(s)
    else
      match Next(s, steps[0])
      case None => None
      case Some(s') => Exec(s', steps[1..])
  }

  // ---------- one socket id's share of a channel ----------

  datatype Item = Registered | Bytes(data: bytes) | Ends

  function ItemOf(m: Msg, id: int): seq<Item> {
    match m
    case Request(_, _) => []
    case Response(_, socketId, _) => if socketId == Some(id) then [Registered] else []
    case Data(i, buffer) => if i == id then [Bytes(buffer)] else []
    case Closed(i) => if i == id then [Ends] else []
  }

  function Share(q: seq<Msg>, id: int): seq<Item> {
    if q == [] then [] else ItemOf(q[0], id) + Share(q[1..], id)
  }

  function Flight(items: seq<Item>): bytes {
    if items == [] then []
    else (if items[0].Bytes? then items[0].data else []) + Flight(items[1..])
  }

  lemma {:induction false} ShareSnoc(q: seq<Msg>, m: Msg, id: int)
    ensures Share(q + [m], id) == Share(q, id) + ItemOf(m, id)
  {
    if q == [] {
      assert q + [m] == [m] && [m][1..] == [];
    } else {
      assert (q + [m])[1..] == q[1..] + [m];
      ShareSnoc(q[1..], m, id);
    }
  }

  lemma {:induction false} FlightSnoc(items: seq<Item>, x: Item)
    ensures Flight(items + [x]) == Flight(items) + if x.Bytes? then x.data else []
  {
    if items == [] {
      assert items + [x] == [x] && [x][1..] == [];
    } else {
      assert (items + [x])[1..] == items[1..] + [x];
      FlightSnoc(items[1..], x);
    }
  }

  // ---------- the invariant ----------

  /** The registration comes first and the end last, if they are there at all. */
  ghost predicate WellOrdered(items: seq<Item>) {
    && (forall i :: 0 <= i < |items| && items[i] == Registered ==> i == 0)
    && (forall i :: 0 <= i < |items| && items[i] == Ends ==> i == |items| - 1)
  }

  predicate Registering(items: seq<Item>) {
    items != [] && items[0] == Registered
  }

  /** The life of one socket id: hc accepted for request fd, hs connected for it. */
  ghost predicate IdInv(
    id: int, fd: int, hc: SocketHandle, hs: SocketHandle, down: seq<Item>, up: seq<Item>, c: End, s: End)
  {
    && WellOrdered(down) && WellOrdered(up) && Registered !in up
    && (Registering(down) ==>
          && id !in c.handler.active
          && fd in c.handler.pending && c.handler.pending[fd] == hc
          && up == [] && hc !in c.closed && Log(c.handed, hc) == [] && Log(c.read, hc) == [])
    && (!Registering(down) && id in c.handler.active ==> c.handler.active[id] == hc)
    && (!Registering(down) && id !in c.handler.active ==> down == [] && hs in s.closed)
    && (Ends in down ==> hs in s.closed)
    && (id in s.handler.active ==> s.handler.active[id] == hs)
    && (id !in s.handler.active ==> up == [] && hc in c.closed)
    && (Ends in up ==> hc in c.closed)
    && (hc in c.closed ==> hs in s.closed || Ends in up)
    && (hs in s.closed ==> hc in c.closed || Ends in down)
    && Log(c.handed, hc) + Flight(down) == Log(s.read, hs)
    && Log(s.handed, hs) + Flight(up) == Log(c.read, hc)
  }

  /** Every handle an end knows was made, and none twice. */
  ghost predicate HandlesUsed(e: End) {
    forall h :: h in e.read || h in e.handed || h in e.closed ==> h in e.used
  }

  /** Every request in use is known, and no two share a handle. */
  ghost predicate RequestNames(s: Sys) {
    && s.wanted.Keys == s.accepted.Keys
    && (forall fd :: fd in s.accepted ==> fd < s.client.handler.nextFd && s.accepted[fd] in s.client.used)
    && (forall fd, fd' :: fd in s.accepted && fd' in s.accepted && s.accepted[fd] == s.accepted[fd'] ==> fd == fd')
  }

  /** Every socket id was connected where its request was to go. */
  ghost predicate RightlyDialed(s: Sys) {
    && s.dialed.Keys == s.connected.Keys == s.fdOf.Keys
    && forall id :: id in s.dialed ==> s.fdOf[id] in s.wanted && s.dialed[id] == s.wanted[s.fdOf[id]]
  }

  /** Every socket id in use is known, and no two share a handle or a request. */
  ghost predicate IdNames(s: Sys) {
    && s.fdOf.Keys == s.connected.Keys
    && (forall id :: id in s.connected ==>
          id < s.server.handler.nextId && s.connected[id] in s.server.used && s.fdOf[id] in s.accepted)
    && (forall id, id' :: id in s.connected && id' in s.connected && s.connected[id] == s.connected[id'] ==> id == id')
    && (forall id, id' :: id in s.fdOf && id' in s.fdOf && s.fdOf[id] == s.fdOf[id'] ==> id == id')
    && s.client.handler.active.Keys <= s.connected.Keys
    && s.server.handler.active.Keys <= s.connected.Keys
  }

  ghost predicate NamesInv(s: Sys) {
    && !s.client.handler.serverSide && s.server.handler.serverSide
    && RequestNames(s) && IdNames(s) && RightlyDialed(s) && HandlesUsed(s.client) && HandlesUsed(s.server)
  }

  /** No socket id has been made for this request. */
  ghost predicate Unanswered(s: Sys, fd: int) {
    forall id :: id in s.fdOf ==> s.fdOf[id] != fd
  }

  /** A message under way to the server names things it knows. */
  ghost predicate UpMsgInv(s: Sys, m: Msg) {
    match m
    case Request(fd, destination) =>
      && fd in s.accepted && Unanswered(s, fd) && s.accepted[fd] !in s.client.closed
      && fd in s.wanted && destination == s.wanted[fd]
      && fd in s.client.handler.pending && s.client.handler.pending[fd] == s.accepted[fd]
      && Log(s.client.handed, s.accepted[fd]) == [] && Log(s.client.read, s.accepted[fd]) == []
    case Response(_, _, _) => false
    case Data(id, buffer) => id in s.connected && buffer != []
    case Closed(id) => id in s.connected
  }

  ghost predicate DownMsgInv(s: Sys, m: Msg) {
    match m
    case Request(_, _) => false
    case Response(fd, socketId, error) =>
      && error == socketId.None?
      && (socketId.Some? ==> socketId.value in s.fdOf && s.fdOf[socketId.value] == fd)
    case Data(id, buffer) => id in s.connected && buffer != []
    case Closed(id) => id in s.connected
  }

  /** Each request is under way at most once. */
  ghost predicate UpInv(s: Sys) {
    && (forall i :: 0 <= i < |s.up| ==> UpMsgInv(s, s.up[i]))
    && (forall i, j :: 0 <= i < j < |s.up| && s.up[i].Request? && s.up[j].Request? ==> s.up[i].fd != s.up[j].fd)
  }

  ghost predicate DownInv(s: Sys) {
    forall i :: 0 <= i < |s.down| ==> DownMsgInv(s, s.down[i])
  }

  ghost predicate Inv(s: Sys) {
    && NamesInv(s) && UpInv(s) && DownInv(s)
    && forall id :: id in s.connected ==> IdInvOf(s, id)
  }

  ghost predicate IdInvOf(s: Sys, id: int)
    requires id in s.connected && id in s.fdOf && s.fdOf[id] in s.accepted
  {
    IdInv(id, s.fdOf[id], s.accepted[s.fdOf[id]], s.connected[id], Share(s.down, id), Share(s.up, id),
          s.client, s.server)
  }
}
