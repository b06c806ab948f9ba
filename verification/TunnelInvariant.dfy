/** Every step of the tunnel system keeps its invariant. */
module TunnelInvariant {
  import opened Bytes
  import opened SocketIo
  import opened PortForward
  import opened TunnelSystem

  // ---------- one socket id ----------

  /** What an id's invariant needs of one end stays as it is. */
  ghost predicate SameFor(e: End, e': End, id: int, fd: int, h: SocketHandle) {
    && (id in e'.handler.active <==> id in e.handler.active)
    && (id in e.handler.active ==> e'.handler.active[id] == e.handler.active[id])
    && (fd in e.handler.pending ==> fd in e'.handler.pending && e'.handler.pending[fd] == e.handler.pending[fd])
    && Log(e'.handed, h) == Log(e.handed, h) && Log(e'.read, h) == Log(e.read, h)
    && (h in e'.closed <==> h in e.closed)
  }

  lemma {:induction false} IdInvFrame(
    id: int, fd: int, hc: SocketHandle, hs: SocketHandle, down: seq<Item>, up: seq<Item>,
    c: End, s: End, c': End, s': End)
    requires IdInv(id, fd, hc, hs, down, up, c, s)
    requires SameFor(c, c', id, fd, hc) && SameFor(s, s', id, fd, hs)
    ensures IdInv(id, fd, hc, hs, down, up, c', s')
  {
  }

  /** An item that joins a share without an end keeps it in order. */
  lemma {:induction false} JoinsBehind(items: seq<Item>, x: Item)
    requires WellOrdered(items) && Ends !in items && x != Registered
    ensures WellOrdered(items + [x]) && Registering(items + [x]) == Registering(items)
    ensures Ends in items + [x] <==> x == Ends
    ensures Registered in items + [x] <==> Registered in items
    ensures Flight(items + [x]) == Flight(items) + if x.Bytes? then x.data else []
  {
    FlightSnoc(items, x);
  }

  /** A poll at the server adds one item behind what is under way to the client. */
  lemma {:induction false} PollServerId(
    id: int, fd: int, hc: SocketHandle, hs: SocketHandle, down: seq<Item>, up: seq<Item>,
    c: End, s: End, x: Item, s': End)
    requires IdInv(id, fd, hc, hs, down, up, c, s)
    requires id in s.handler.active && hs !in s.closed && x != Registered
    requires s'.handler == s.handler && s'.handed == s.handed && (hs in s'.closed <==> x == Ends)
    requires Log(s'.read, hs) == Log(s.read, hs) + if x.Bytes? then x.data else []
    ensures IdInv(id, fd, hc, hs, down + [x], up, c, s')
  {
    hide WellOrdered, Registering, Flight, Log;
    JoinsBehind(down, x);
    var data := if x.Bytes? then x.data else [];
    assert Log(c.handed, hc) + (Flight(down) + data) == Log(c.handed, hc) + Flight(down) + data;
  }

  lemma {:induction false} PollClientId(
    id: int, fd: int, hc: SocketHandle, hs: SocketHandle, down: seq<Item>, up: seq<Item>,
    c: End, s: End, x: Item, c': End)
    requires IdInv(id, fd, hc, hs, down, up, c, s)
    requires id in c.handler.active && hc !in c.closed && x != Registered
    requires c'.handler == c.handler && c'.handed == c.handed && (hc in c'.closed <==> x == Ends)
    requires Log(c'.read, hc) == Log(c.read, hc) + if x.Bytes? then x.data else []
    ensures IdInv(id, fd, hc, hs, down, up + [x], c', s)
  {
    hide WellOrdered, Flight, Log;
    JoinsBehind(up, x);
    var data := if x.Bytes? then x.data else [];
    assert Log(s.handed, hs) + (Flight(up) + data) == Log(s.handed, hs) + Flight(up) + data;
  }

  /** Who is to take the first item under way. */
  lemma {:induction false} Targets(
    id: int, fd: int, hc: SocketHandle, hs: SocketHandle, down: seq<Item>, up: seq<Item>, c: End, s: End)
    requires IdInv(id, fd, hc, hs, down, up, c, s)
    ensures up != [] ==> id in s.handler.active && s.handler.active[id] == hs
    ensures down != [] && down[0] != Registered ==> id in c.handler.active && c.handler.active[id] == hc
    ensures down != [] && down[0] == Registered ==>
              fd in c.handler.pending && c.handler.pending[fd] == hc && id !in c.handler.active
  {
  }

  /** The first item under way to the server is taken. */
  lemma {:induction false} TakeUpId(
    id: int, fd: int, hc: SocketHandle, hs: SocketHandle, down: seq<Item>, up: seq<Item>, c: End, s: End, s': End)
    requires IdInv(id, fd, hc, hs, down, up, c, s) && up != []
    requires s'.read == s.read && (hs in s'.closed <==> hs in s.closed || up[0] == Ends)
    requires match up[0]
             case Registered => false
             case Bytes(data) => s'.handler == s.handler && Log(s'.handed, hs) == Log(s.handed, hs) + data
             case Ends => s'.handler.active == s.handler.active - {id} && s'.handed == s.handed
    ensures IdInv(id, fd, hc, hs, down, up[1..], c, s')
  {
    Tail(up);
    HeadFlies(up, Log(s.handed, hs));
    hide Log, Flight, WellOrdered;
  }

  lemma {:induction false} Tail(items: seq<Item>)
    requires WellOrdered(items) && items != []
    ensures WellOrdered(items[1..]) && Registered !in items[1..]
    ensures items[0] == Ends ==> items[1..] == []
    ensures Ends in items[1..] ==> Ends in items
  {
    var rest := items[1..];
    assert forall i :: 0 <= i < |rest| ==> rest[i] == items[i + 1];
  }

  /** The bytes of the head come first. */
  lemma {:induction false} HeadFlies(items: seq<Item>, before: bytes)
    requires items != []
    ensures before + Flight(items) == before + (if items[0].Bytes? then items[0].data else []) + Flight(items[1..])
  {
  }

  /** The first item under way to the client is taken. */
  lemma {:induction false} TakeDownId(
    id: int, fd: int, hc: SocketHandle, hs: SocketHandle, down: seq<Item>, up: seq<Item>, c: End, s: End, c': End)
    requires IdInv(id, fd, hc, hs, down, up, c, s) && down != []
    requires c'.read == c.read && (hc in c'.closed <==> hc in c.closed || down[0] == Ends)
    requires match down[0]
             case Registered =>
               c'.handler.active == c.handler.active[id := hc] && c'.handed == c.handed
             case Bytes(data) => c'.handler == c.handler && Log(c'.handed, hc) == Log(c.handed, hc) + data
             case Ends => c'.handler.active == c.handler.active - {id} && c'.handed == c.handed
    ensures IdInv(id, fd, hc, hs, down[1..], up, c', s)
  {
    Tail(down);
    HeadFlies(down, Log(c.handed, hc));
    hide Log, Flight, WellOrdered;
  }

  // ---------- shares of the channels ----------

  lemma {:induction false} ShareUnknown(q: seq<Msg>, id: int)
    requires forall i :: 0 <= i < |q| ==> ItemOf(q[i], id) == []
    ensures Share(q, id) == []
  {
    if q != [] {
      ShareUnknown(q[1..], id);
    }
  }

  // ---------- the steps ----------

  lemma {:induction false} AcceptNames(s: Sys, handle: SocketHandle, destination: Destination)
    requires NamesInv(s) && DoAccept(s, handle, destination).Some?
    ensures NamesInv(DoAccept(s, handle, destination).value)
  {
  }

  lemma {:induction false} AcceptMessages(s: Sys, handle: SocketHandle, destination: Destination)
    requires NamesInv(s) && UpInv(s) && DownInv(s) && DoAccept(s, handle, destination).Some?
    ensures UpInv(DoAccept(s, handle, destination).value) && DownInv(DoAccept(s, handle, destination).value)
  {
    var s' := DoAccept(s, handle, destination).value;
    forall i | 0 <= i < |s'.up|
      ensures UpMsgInv(s', s'.up[i])
    {
      if i < |s.up| {
        assert UpMsgInv(s, s.up[i]);
      }
    }
    forall i | 0 <= i < |s'.down|
      ensures DownMsgInv(s', s'.down[i])
    {
      assert DownMsgInv(s, s.down[i]);
    }
    forall i, j | 0 <= i < j < |s'.up| && s'.up[i].Request? && s'.up[j].Request?
      ensures s'.up[i].fd != s'.up[j].fd
    {
      assert UpMsgInv(s, s.up[i]);
    }
  }

  /** The invariant of id where only its ends changed, and not in what it depends on. */
  lemma {:induction false} SameId(s: Sys, s': Sys, id: int)
    requires id in s.connected && id in s.fdOf && s.fdOf[id] in s.accepted && IdInvOf(s, id)
    requires id in s'.connected && id in s'.fdOf && s'.fdOf[id] in s'.accepted
    requires s'.fdOf[id] == s.fdOf[id] && s'.connected[id] == s.connected[id]
    requires s'.accepted[s.fdOf[id]] == s.accepted[s.fdOf[id]]
    requires Share(s'.up, id) == Share(s.up, id) && Share(s'.down, id) == Share(s.down, id)
    requires SameFor(s.client, s'.client, id, s.fdOf[id], s.accepted[s.fdOf[id]])
    requires SameFor(s.server, s'.server, id, s.fdOf[id], s.connected[id])
    ensures IdInvOf(s', id)
  {
    hide IdInv, SameFor;
    IdInvFrame(id, s.fdOf[id], s.accepted[s.fdOf[id]], s.connected[id], Share(s.down, id), Share(s.up, id),
               s.client, s.server, s'.client, s'.server);
  }

  lemma {:induction false} AcceptKeeps(s: Sys, handle: SocketHandle, destination: Destination)
    requires Inv(s) && DoAccept(s, handle, destination).Some?
    ensures Inv(DoAccept(s, handle, destination).value)
  {
    hide IdInv, UpInv, DownInv, Share, Log;
    var s' := DoAccept(s, handle, destination).value;
    AcceptNames(s, handle, destination);
    AcceptMessages(s, handle, destination);
    var m := Request(s.client.handler.nextFd, destination);
    forall id | id in s'.connected
      ensures IdInvOf(s', id)
    {
      assert IdInvOf(s, id);
      ShareSnoc(s.up, m, id);
      SameId(s, s', id);
    }
  }

  /** The packet a poll sends, and the same as an item. */
  function PollMsg(id: int, p: Poll): Msg
    requires !p.NotReady?
  {
    if p.Chunk? then Data(id, p.data) else Closed(id)
  }

  function PollItem(p: Poll): Item
    requires !p.NotReady?
  {
    if p.Chunk? then Bytes(p.data) else Ends
  }

  lemma {:induction false} LogAppend(m: map<SocketHandle, bytes>, h: SocketHandle, data: bytes, g: SocketHandle)
    ensures Log(Append(m, h, data), g) == Log(m, g) + if g == h then data else []
  {
    if g != h {
      assert Log(m, g) + [] == Log(m, g);
    }
  }

  /** A poll adds one packet to a channel, and one item to that id's share of it alone. */
  lemma {:induction false} ShareOfPoll(q: seq<Msg>, id: int, p: Poll, other: int)
    requires !p.NotReady?
    ensures Share(q + [PollMsg(id, p)], other) == Share(q, other) + if other == id then [PollItem(p)] else []
  {
    ShareSnoc(q, PollMsg(id, p), other);
  }

  lemma {:induction false} PollServerNames(s: Sys, id: int, p: Poll)
    requires NamesInv(s) && DoPollServer(s, id, p).Some? && s.server.handler.active[id] in s.server.used
    ensures NamesInv(DoPollServer(s, id, p).value)
  {
  }

  lemma {:induction false} PollClientNames(s: Sys, id: int, p: Poll)
    requires NamesInv(s) && DoPollClient(s, id, p).Some? && s.client.handler.active[id] in s.client.used
    ensures NamesInv(DoPollClient(s, id, p).value)
  {
  }

  lemma {:induction false} PollServerMessages(s: Sys, id: int, p: Poll)
    requires NamesInv(s) && UpInv(s) && DownInv(s) && DoPollServer(s, id, p).Some? && !p.NotReady?
    ensures UpInv(DoPollServer(s, id, p).value) && DownInv(DoPollServer(s, id, p).value)
  {
    var s' := DoPollServer(s, id, p).value;
    assert s'.down == s.down + [PollMsg(id, p)] && s'.up == s.up;
    forall i | 0 <= i < |s'.up|
      ensures UpMsgInv(s', s'.up[i])
    {
      assert UpMsgInv(s, s.up[i]);
    }
    forall i | 0 <= i < |s'.down|
      ensures DownMsgInv(s', s'.down[i])
    {
      if i < |s.down| {
        assert DownMsgInv(s, s.down[i]);
      }
    }
  }

  lemma {:induction false} PollClientMessages(s: Sys, id: int, p: Poll)
    requires NamesInv(s) && UpInv(s) && DownInv(s) && DoPollClient(s, id, p).Some? && !p.NotReady?
    requires id in s.connected && s.client.handler.active[id] == s.accepted[s.fdOf[id]]
    ensures UpInv(DoPollClient(s, id, p).value) && DownInv(DoPollClient(s, id, p).value)
  {
    var s' := DoPollClient(s, id, p).value;
    var hc := s.client.handler.active[id];
    assert s'.up == s.up + [PollMsg(id, p)] && s'.down == s.down;
    forall i | 0 <= i < |s'.up|
      ensures UpMsgInv(s', s'.up[i])
    {
      if i < |s.up| {
        assert UpMsgInv(s, s.up[i]);
        if s.up[i].Request? && p.Chunk? {
          LogAppend(s.client.read, hc, p.data, s.accepted[s.up[i].fd]);
        }
      }
    }
    forall i | 0 <= i < |s'.down|
      ensures DownMsgInv(s', s'.down[i])
    {
      assert DownMsgInv(s, s.down[i]);
    }
  }

  lemma {:induction false} PollServerKeeps(s: Sys, id: int, p: Poll)
    requires Inv(s) && DoPollServer(s, id, p).Some?
    ensures Inv(DoPollServer(s, id, p).value)
  {
    hide UpInv, DownInv, Share, Log;
    var s' := DoPollServer(s, id, p).value;
    if p.NotReady? {
      assert s' == s;
    } else {
      assert IdInvOf(s, id);
      var hs := s.connected[id];
      PollServerNames(s, id, p);
      PollServerMessages(s, id, p);
      hide IdInv;
      forall j | j in s'.connected
        ensures IdInvOf(s', j)
      {
        assert IdInvOf(s, j);
        ShareOfPoll(s.down, id, p, j);
        var data := if p.Chunk? then p.data else [];
        LogAppend(s.server.read, hs, data, s.connected[j]);
        if j == id {
          PollServerId(id, s.fdOf[id], s.accepted[s.fdOf[id]], hs, Share(s.down, id), Share(s.up, id),
                       s.client, s.server, PollItem(p), s'.server);
        } else {
          SameId(s, s', j);
        }
      }
    }
  }

  lemma {:induction false} PollClientKeeps(s: Sys, id: int, p: Poll)
    requires Inv(s) && DoPollClient(s, id, p).Some?
    ensures Inv(DoPollClient(s, id, p).value)
  {
    hide UpInv, DownInv, Share, Log;
    var s' := DoPollClient(s, id, p).value;
    if p.NotReady? {
      assert s' == s;
    } else {
      assert IdInvOf(s, id);
      var hc := s.accepted[s.fdOf[id]];
      assert s.client.handler.active[id] == hc;
      PollClientNames(s, id, p);
      PollClientMessages(s, id, p);
      hide IdInv;
      forall j | j in s'.connected
        ensures IdInvOf(s', j)
      {
        assert IdInvOf(s, j);
        ShareOfPoll(s.up, id, p, j);
        var data := if p.Chunk? then p.data else [];
        LogAppend(s.client.read, hc, data, s.accepted[s.fdOf[j]]);
        if j == id {
          PollClientId(id, s.fdOf[id], hc, s.connected[id], Share(s.down, id), Share(s.up, id),
                       s.client, s.server, PollItem(p), s'.client);
        } else {
          SameId(s, s', j);
        }
      }
    }
  }

  // ---------- deliveries ----------

  /** The step registers a new id at the server. */
  predicate Connects(s: Sys, handle: SocketHandle) {
    s.up != [] && s.up[0].Request? && handle != INVALID_SOCKET
  }

  lemma {:induction false} ConnectNames(s: Sys, handle: SocketHandle)
    requires NamesInv(s) && DoDeliverUp(s, handle).Some? && UpMsgInv(s, s.up[0]) && Connects(s, handle)
    ensures NamesInv(DoDeliverUp(s, handle).value)
  {
    ConnectIdNames(s, handle);
    hide IdNames;
    var s' := DoDeliverUp(s, handle).value;
    assert s'.client == s.client && s'.accepted == s.accepted && s'.wanted == s.wanted;
  }

  lemma {:induction false} ConnectIdNames(s: Sys, handle: SocketHandle)
    requires NamesInv(s) && DoDeliverUp(s, handle).Some? && UpMsgInv(s, s.up[0]) && Connects(s, handle)
    ensures IdNames(DoDeliverUp(s, handle).value)
    ensures s.server.handler.nextId !in s.connected
  {
    hide HandlesUsed, RightlyDialed;
  }

  lemma {:induction false} RouteUpNames(s: Sys, handle: SocketHandle)
    requires NamesInv(s) && DoDeliverUp(s, handle).Some? && !Connects(s, handle) && UpMsgInv(s, s.up[0])
    requires forall id :: id in s.server.handler.active ==> s.server.handler.active[id] in s.server.used
    ensures NamesInv(DoDeliverUp(s, handle).value)
  {
    var s' := DoDeliverUp(s, handle).value;
    assert s'.client == s.client && s'.accepted == s.accepted && s'.connected == s.connected && s'.fdOf == s.fdOf;
  }

  lemma {:induction false} DeliverUpMessages(s: Sys, handle: SocketHandle)
    requires NamesInv(s) && UpInv(s) && DownInv(s) && DoDeliverUp(s, handle).Some?
    ensures UpInv(DoDeliverUp(s, handle).value) && DownInv(DoDeliverUp(s, handle).value)
  {
    var s' := DoDeliverUp(s, handle).value;
    assert UpMsgInv(s, s.up[0]);
    assert s'.client == s.client && s'.accepted == s.accepted;
    forall i | 0 <= i < |s'.up|
      ensures UpMsgInv(s', s'.up[i])
    {
      assert s'.up[i] == s.up[i + 1];
      assert UpMsgInv(s, s.up[i + 1]);
    }
    forall i | 0 <= i < |s'.down|
      ensures DownMsgInv(s', s'.down[i])
    {
      if i < |s.down| {
        assert s'.down[i] == s.down[i];
        assert DownMsgInv(s, s.down[i]);
      }
    }
  }

  /** A new id begins with its registration under way to the client. */
  lemma {:induction false} NewId(s: Sys, handle: SocketHandle)
    requires NamesInv(s) && UpInv(s) && DownInv(s) && DoDeliverUp(s, handle).Some?
    requires s.up[0].Request? && handle != INVALID_SOCKET
    ensures var s' := DoDeliverUp(s, handle).value;
            var id := s.server.handler.nextId;
            id in s'.connected && id in s'.fdOf && s'.fdOf[id] in s'.accepted && IdInvOf(s', id)
  {
    hide Share;
    var s' := DoDeliverUp(s, handle).value;
    var id, fd := s.server.handler.nextId, s.up[0].fd;
    assert UpMsgInv(s, s.up[0]);
    forall i | 0 <= i < |s.up[1..]|
      ensures ItemOf(s.up[1..][i], id) == []
    {
      assert UpMsgInv(s, s.up[i + 1]);
    }
    ShareUnknown(s.up[1..], id);
    forall i | 0 <= i < |s.down|
      ensures ItemOf(s.down[i], id) == []
    {
      assert DownMsgInv(s, s.down[i]);
    }
    ShareUnknown(s.down, id);
    ShareSnoc(s.down, Response(fd, Some(id), false), id);
    assert Share(s'.down, id) == [Registered];
    assert Flight([Registered]) == [] by {
      assert [Registered][1..] == [];
    }
  }

  lemma {:induction false} ConnectKeeps(s: Sys, handle: SocketHandle)
    requires Inv(s) && DoDeliverUp(s, handle).Some? && Connects(s, handle)
    ensures Inv(DoDeliverUp(s, handle).value)
  {
    assert UpMsgInv(s, s.up[0]);
    hide UpInv, DownInv, Log, IdInv, UpMsgInv, Share;
    var s', id := DoDeliverUp(s, handle).value, s.server.handler.nextId;
    ConnectNames(s, handle);
    DeliverUpMessages(s, handle);
    NewId(s, handle);
    forall j | j in s'.connected
      ensures IdInvOf(s', j)
    {
      if j != id {
        ConnectOther(s, handle, j);
      }
    }
  }

  lemma {:induction false} ConnectOther(s: Sys, handle: SocketHandle, j: int)
    requires Inv(s) && DoDeliverUp(s, handle).Some? && Connects(s, handle) && j in s.connected
    ensures IdInvOf(DoDeliverUp(s, handle).value, j)
  {
    assert IdInvOf(s, j) && j != s.server.handler.nextId;
    hide UpInv, DownInv, Log, IdInv, Share, HandlesUsed, RequestNames;
    var s', id, fd := DoDeliverUp(s, handle).value, s.server.handler.nextId, s.up[0].fd;
    assert s'.client == s.client && s'.accepted == s.accepted;
    TakesNone(s.up, j);
    ShareSnoc(s.down, Response(fd, Some(id), false), j);
    SameId(s, s', j);
  }

  lemma {:induction false} TakesNone(q: seq<Msg>, id: int)
    requires q != [] && ItemOf(q[0], id) == []
    ensures Share(q[1..], id) == Share(q, id)
  {
  }

  /** Both other kinds of packet name one id and take the head of its share. */
  lemma {:induction false} TakesOne(q: seq<Msg>, id: int)
    requires q != [] && ItemOf(q[0], id) != []
    ensures Share(q, id) != [] && [Share(q, id)[0]] == ItemOf(q[0], id) && Share(q, id)[1..] == Share(q[1..], id)
  {
  }

  /** Where a data or closing packet for the server goes. */
  lemma {:induction false} UpTarget(s: Sys)
    requires Inv(s) && s.up != [] && (s.up[0].Data? || s.up[0].Closed?)
    ensures s.up[0].id in s.connected && s.up[0].id in s.server.handler.active
    ensures s.server.handler.active[s.up[0].id] == s.connected[s.up[0].id]
  {
    assert UpMsgInv(s, s.up[0]);
    var id := s.up[0].id;
    assert IdInvOf(s, id);
    TakesOne(s.up, id);
    hide UpInv, DownInv, Log, UpMsgInv, Share, IdInv;
    Targets(id, s.fdOf[id], s.accepted[s.fdOf[id]], s.connected[id], Share(s.down, id), Share(s.up, id),
            s.client, s.server);
  }

  /** The named id of a data or closing packet for the server. */
  lemma {:induction false} RouteUpId(s: Sys, handle: SocketHandle)
    requires Inv(s) && DoDeliverUp(s, handle).Some? && (s.up[0].Data? || s.up[0].Closed?)
    ensures s.up[0].id in s.connected && s.up[0].id in s.server.handler.active
    ensures s.server.handler.active[s.up[0].id] == s.connected[s.up[0].id]
    ensures IdInvOf(DoDeliverUp(s, handle).value, s.up[0].id)
  {
    var s', m := DoDeliverUp(s, handle).value, s.up[0];
    UpTarget(s);
    var id := m.id;
    assert IdInvOf(s, id);
    var hs := s.connected[id];
    TakesOne(s.up, id);
    hide UpInv, DownInv, Log, UpMsgInv, Share, IdInv;
    assert s'.down == s.down && s'.up == s.up[1..];
    if m.Data? {
      LogAppend(s.server.handed, hs, m.buffer, hs);
    }
    TakeUpId(id, s.fdOf[id], s.accepted[s.fdOf[id]], hs, Share(s.down, id), Share(s.up, id),
             s.client, s.server, s'.server);
  }

  lemma {:induction false} ActiveUsed(s: Sys)
    requires Inv(s)
    ensures forall id :: id in s.server.handler.active ==> s.server.handler.active[id] in s.server.used
    ensures forall id :: id in s.client.handler.active ==> s.client.handler.active[id] in s.client.used
  {
    hide UpInv, DownInv, Log, UpMsgInv, Share, WellOrdered, Flight;
    forall id | id in s.server.handler.active
      ensures s.server.handler.active[id] in s.server.used
    {
      assert IdInvOf(s, id);
    }
    forall id | id in s.client.handler.active
      ensures s.client.handler.active[id] in s.client.used
    {
      assert IdInvOf(s, id);
    }
  }

  lemma {:induction false} RouteUpKeeps(s: Sys, handle: SocketHandle)
    requires Inv(s) && DoDeliverUp(s, handle).Some? && !Connects(s, handle)
    ensures Inv(DoDeliverUp(s, handle).value)
  {
    assert UpMsgInv(s, s.up[0]);
    hide UpInv, DownInv, Log, IdInv, UpMsgInv, Share;
    var s', m := DoDeliverUp(s, handle).value, s.up[0];
    ActiveUsed(s);
    RouteUpNames(s, handle);
    DeliverUpMessages(s, handle);
    if m.Data? || m.Closed? {
      RouteUpId(s, handle);
    }
    forall j | j in s'.connected
      ensures IdInvOf(s', j)
    {
      if !((m.Data? || m.Closed?) && m.id == j) {
        RouteUpOther(s, handle, j);
      }
    }
  }

  lemma {:induction false} RouteUpOther(s: Sys, handle: SocketHandle, j: int)
    requires Inv(s) && DoDeliverUp(s, handle).Some? && !Connects(s, handle)
    requires j in s.connected && ItemOf(s.up[0], j) == []
    ensures IdInvOf(DoDeliverUp(s, handle).value, j)
  {
    assert UpMsgInv(s, s.up[0]);
    hide Inv, DoDeliverUp;
    if s.up[0].Request? {
      RefusedOther(s, handle, j);
    } else {
      DataUpOther(s, handle, j);
    }
  }

  /** A request that cannot be connected leaves every id as it is. */
  lemma {:induction false} RefusedOther(s: Sys, handle: SocketHandle, j: int)
    requires Inv(s) && DoDeliverUp(s, handle).Some? && !Connects(s, handle) && s.up[0].Request?
    requires j in s.connected
    ensures IdInvOf(DoDeliverUp(s, handle).value, j)
  {
    var s', m := DoDeliverUp(s, handle).value, s.up[0];
    assert IdInvOf(s, j);
    hide UpInv, DownInv, Log, IdInv, Share, HandlesUsed, RequestNames;
    assert s'.client == s.client && s'.server == s.server;
    TakesNone(s.up, j);
    ShareSnoc(s.down, Response(m.fd, None, true), j);
    SameId(s, s', j);
  }

  /** A packet for one id leaves every other as it is. */
  lemma {:induction false} DataUpOther(s: Sys, handle: SocketHandle, j: int)
    requires Inv(s) && DoDeliverUp(s, handle).Some? && (s.up[0].Data? || s.up[0].Closed?)
    requires j in s.connected && ItemOf(s.up[0], j) == []
    ensures IdInvOf(DoDeliverUp(s, handle).value, j)
  {
    var s', m := DoDeliverUp(s, handle).value, s.up[0];
    assert IdInvOf(s, j) && s.fdOf[j] in s.accepted;
    hide UpInv, DownInv, Log, IdInv, Share, HandlesUsed, RequestNames;
    UpTarget(s);
    assert s.connected[j] != s.connected[m.id];
    hide IdNames;
    assert s'.client == s.client && s'.down == s.down;
    TakesNone(s.up, j);
    if m.Data? {
      LogAppend(s.server.handed, s.connected[m.id], m.buffer, s.connected[j]);
    }
    SameId(s, s', j);
  }

  lemma {:induction false} DeliverDownNames(s: Sys)
    requires NamesInv(s) && DownInv(s) && DoDeliverDown(s).Some?
    requires forall id :: id in s.client.handler.active ==> s.client.handler.active[id] in s.client.used
    ensures NamesInv(DoDeliverDown(s).value)
  {
    assert DownMsgInv(s, s.down[0]);
  }

  /** The named id of any packet for the client that names one. */
  lemma {:induction false} RouteDownId(s: Sys, id: int)
    requires Inv(s) && DoDeliverDown(s).Some? && ItemOf(s.down[0], id) != []
    ensures id in s.connected
    ensures s.down[0].Response? ==>
              && s.down[0].fd == s.fdOf[id] && !s.down[0].error && s.fdOf[id] in s.client.handler.pending
              && s.client.handler.pending[s.fdOf[id]] == s.accepted[s.fdOf[id]] && id !in s.client.handler.active
    ensures !s.down[0].Response? ==>
              id in s.client.handler.active && s.client.handler.active[id] == s.accepted[s.fdOf[id]]
    ensures IdInvOf(DoDeliverDown(s).value, id)
  {
    var s', m := DoDeliverDown(s).value, s.down[0];
    assert DownMsgInv(s, m);
    assert IdInvOf(s, id);
    var hc := s.accepted[s.fdOf[id]];
    TakesOne(s.down, id);
    hide UpInv, DownInv, Log, Share, IdInv;
    var down := Share(s.down, id);
    Targets(id, s.fdOf[id], hc, s.connected[id], down, Share(s.up, id), s.client, s.server);
    assert s'.down == s.down[1..] && s'.up == s.up;
    if m.Data? {
      LogAppend(s.client.handed, hc, m.buffer, hc);
    }
    TakeDownId(id, s.fdOf[id], hc, s.connected[id], down, Share(s.up, id), s.client, s.server, s'.client);
  }

  /** A packet for the client leaves the requests under way as they are. */
  lemma {:induction false} RequestWaits(s: Sys, m: Msg)
    requires Inv(s) && DoDeliverDown(s).Some? && m.Request? && UpMsgInv(s, m)
    ensures UpMsgInv(DoDeliverDown(s).value, m)
  {
    assert DownMsgInv(s, s.down[0]);
    hide Inv, DoDeliverDown;
    if s.down[0].Response? {
      WaitsForAnswer(s, m);
    } else {
      WaitsBehindData(s, m);
    }
  }

  lemma {:induction false} WaitsForAnswer(s: Sys, m: Msg)
    requires Inv(s) && DoDeliverDown(s).Some? && m.Request? && UpMsgInv(s, m) && s.down[0].Response?
    ensures UpMsgInv(DoDeliverDown(s).value, m)
  {
    var d := s.down[0];
    assert DownMsgInv(s, d);
    hide UpInv, DownInv, IdInvOf, Share, HandlesUsed, RequestNames, Log;
    if d.socketId.Some? {
      var id := d.socketId.value;
      assert Unanswered(s, m.fd);
      assert id in s.fdOf && s.fdOf[id] == d.fd;
      assert d.fd != m.fd;
    }
  }

  lemma {:induction false} WaitsBehindData(s: Sys, m: Msg)
    requires Inv(s) && DoDeliverDown(s).Some? && m.Request? && UpMsgInv(s, m)
    requires s.down[0].Data? || s.down[0].Closed?
    ensures UpMsgInv(DoDeliverDown(s).value, m)
  {
    var s', d := DoDeliverDown(s).value, s.down[0];
    assert DownMsgInv(s, d);
    hide UpInv, DownInv, IdInvOf, Share, HandlesUsed;
    assert Unanswered(s, m.fd) && s'.accepted == s.accepted && s'.fdOf == s.fdOf;
    RouteDownId(s, d.id);
    assert s.accepted[s.fdOf[d.id]] != s.accepted[m.fd];
    hide RequestNames, IdNames, Log;
    if d.Data? {
      LogAppend(s.client.handed, s.accepted[s.fdOf[d.id]], d.buffer, s.accepted[m.fd]);
    }
  }

  lemma {:induction false} DeliverDownMessages(s: Sys)
    requires Inv(s) && DoDeliverDown(s).Some?
    ensures UpInv(DoDeliverDown(s).value) && DownInv(DoDeliverDown(s).value)
  {
    hide IdInvOf, Share, NamesInv, Log;
    var s' := DoDeliverDown(s).value;
    assert DownMsgInv(s, s.down[0]);
    assert s'.up == s.up && s'.connected == s.connected && s'.fdOf == s.fdOf;
    forall i | 0 <= i < |s'.up|
      ensures UpMsgInv(s', s'.up[i])
    {
      assert UpMsgInv(s, s.up[i]);
      if s.up[i].Request? {
        RequestWaits(s, s.up[i]);
      }
    }
    forall i | 0 <= i < |s'.down|
      ensures DownMsgInv(s', s'.down[i])
    {
      assert DownMsgInv(s, s.down[i + 1]);
    }
  }

  /** An answer leaves every other id as it is. */
  lemma {:induction false} AnswerOther(s: Sys, j: int)
    requires Inv(s) && DoDeliverDown(s).Some? && s.down[0].Response?
    requires j in s.connected && ItemOf(s.down[0], j) == []
    ensures IdInvOf(DoDeliverDown(s).value, j)
  {
    var s' := DoDeliverDown(s).value;
    AnswersAnother(s, j);
    assert IdInvOf(s, j) && s.fdOf[j] in s.accepted;
    hide UpInv, DownInv, Log, IdInv, Share, HandlesUsed, RequestNames, IdNames;
    TakesNone(s.down, j);
    assert s'.up == s.up && s'.server == s.server;
    SameId(s, s', j);
  }

  lemma {:induction false} AnswersAnother(s: Sys, j: int)
    requires Inv(s) && s.down != [] && s.down[0].Response?
    requires j in s.connected && ItemOf(s.down[0], j) == []
    ensures s.down[0].socketId.Some? ==> j in s.fdOf && s.fdOf[j] != s.down[0].fd
    ensures s.down[0].error == s.down[0].socketId.None?
  {
    hide IdInvOf;
    var m := s.down[0];
    assert DownMsgInv(s, m);
    if m.socketId.Some? {
      assert m.socketId.value != j;
      assert s.fdOf[j] != s.fdOf[m.socketId.value];
    }
  }

  lemma {:induction false} RouteDownOther(s: Sys, j: int)
    requires Inv(s) && DoDeliverDown(s).Some? && !s.down[0].Response?
    requires j in s.connected && ItemOf(s.down[0], j) == []
    ensures IdInvOf(DoDeliverDown(s).value, j)
  {
    var s', m := DoDeliverDown(s).value, s.down[0];
    assert DownMsgInv(s, m) && IdInvOf(s, j);
    assert s.fdOf[j] in s.accepted;
    hide UpInv, DownInv, Log, IdInv, Share, HandlesUsed;
    TakesNone(s.down, j);
    RouteDownId(s, m.id);
    var hm, hj := s.accepted[s.fdOf[m.id]], s.accepted[s.fdOf[j]];
    assert hm != hj;
    hide RequestNames, IdNames;
    assert s'.up == s.up && s'.server == s.server;
    if m.Data? {
      LogAppend(s.client.handed, hm, m.buffer, hj);
    }
    SameId(s, s', j);
  }

  lemma {:induction false} DeliverDownKeeps(s: Sys)
    requires Inv(s) && DoDeliverDown(s).Some?
    ensures Inv(DoDeliverDown(s).value)
  {
    hide UpInv, DownInv, Log, IdInv, Share, HandleMsg;
    ActiveUsed(s);
    DeliverDownNames(s);
    DeliverDownMessages(s);
    var s' := DoDeliverDown(s).value;
    forall j | j in s'.connected
      ensures IdInvOf(s', j)
    {
      if ItemOf(s.down[0], j) != [] {
        RouteDownId(s, j);
      } else if s.down[0].Response? {
        AnswerOther(s, j);
      } else {
        RouteDownOther(s, j);
      }
    }
  }

  lemma {:induction false} DeliverUpKeeps(s: Sys, handle: SocketHandle)
    requires Inv(s) && DoDeliverUp(s, handle).Some?
    ensures Inv(DoDeliverUp(s, handle).value)
  {
    hide Inv, DoDeliverUp;
    if Connects(s, handle) {
      ConnectKeeps(s, handle);
    } else {
      RouteUpKeeps(s, handle);
    }
  }

  lemma {:induction false} NextKeeps(s: Sys, st: Step)
    requires Inv(s) && Next(s, st).Some?
    ensures Inv(Next(s, st).value)
  {
    hide Inv;
    match st
    case Accept(handle, destination) => AcceptKeeps(s, handle, destination);
    case PollClient(id, p) => PollClientKeeps(s, id, p);
    case PollServer(id, p) => PollServerKeeps(s, id, p);
    case DeliverUp(handle) => DeliverUpKeeps(s, handle);
    case DeliverDown => DeliverDownKeeps(s);
  }

  lemma {:induction false} ExecKeeps(s: Sys, steps: seq<Step>)
    requires Inv(s) && Exec(s, steps).Some?
    ensures Inv(Exec(s, steps).value)
    decreases |steps|
  {
    hide Inv, Next;
    if steps != [] {
      NextKeeps(s, steps[0]);
      ExecKeeps(Next(s, steps[0]).value, steps[1..]);
    }
  }

  /** Every run from two fresh handlers keeps the invariant. */
  lemma {:induction false} Reached(steps: seq<Step>)
    requires Exec(Initial(), steps).Some?
    ensures Inv(Exec(Initial(), steps).value)
  {
    ExecKeeps(Initial(), steps);
  }
}
