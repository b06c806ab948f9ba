/**
 * The Connection class: one endpoint's reader and writer behind one socket field. Its methods
 * are tied to the endpoint functions the two-endpoint system is built from.
 */
module Connections {
  import opened Bytes
  import opened Packets
  import opened Nonces
  import opened SocketIo
  import opened BackedWriters
  import opened BackedReaders
  import opened Catchup
  import opened Recovery

  /**
   * How the four messages of one Recover fare: whether the two sends went through, and what the
   * two receives returned. false and None are exceptions.
   */
  datatype Exchange = Exchange(
    helloSent: bool,
    header: Option<int>,
    catchupSent: bool,
    catchup: Option<bytes>)

  /** The catch-up packets to queue if Recover succeeds, None if it fails. */
  function RecoverOutcome(w: WriterState, x: Exchange): Option<seq<bytes>> {
    if !x.helloSent || x.header.None? then None
    else
      match RecoverFrom(w, x.header.value)
      case Refused => None
      case Replay(ps) =>
        if |Encode(ps)| > MAX_FRAME || !x.catchupSent || x.catchup.None? then None
        else Decode(x.catchup.value)
  }

  /** The catch-up message Recover gets to send, if it gets that far. */
  function RecoverOffer(w: WriterState, x: Exchange): Option<bytes> {
    if !x.helloSent || x.header.None? then None
    else
      match RecoverFrom(w, x.header.value)
      case Refused => None
      case Replay(ps) => if |Encode(ps)| > MAX_FRAME then None else Some(Encode(ps))
  }

  /** What other threads do to a connection between two attempts of WritePacket. */
  datatype Turn =
    | Waited
    | Dropped
    | WasShutDown
    | WasRecovered(socket: SocketHandle, exchange: Exchange)
    | WroteOther(packet: Packet)

  /** The packets other threads try to write. */
  function OthersOf(turns: seq<Turn>): seq<Packet> {
    if turns == [] then []
    else
      var last := turns[|turns| - 1];
      OthersOf(turns[..|turns| - 1]) + if last.WroteOther? then [last.packet] else []
  }

  /** xs is ys with some entries left out. */
  predicate SubsequenceOf(xs: seq<Packet>, ys: seq<Packet>) {
    if xs == [] then true
    else if ys == [] then false
    else
      || SubsequenceOf(xs, ys[..|ys| - 1])
      || (xs[|xs| - 1] == ys[|ys| - 1] && SubsequenceOf(xs[..|xs| - 1], ys[..|ys| - 1]))
  }

  lemma {:induction false} SubsequenceGrows(xs: seq<Packet>, ys: seq<Packet>, y: Packet)
    requires SubsequenceOf(xs, ys)
    ensures SubsequenceOf(xs, ys + [y]) && SubsequenceOf(xs + [y], ys + [y])
  {
    assert (ys + [y])[..|ys|] == ys && (xs + [y])[..|xs|] == xs;
  }

  class Connection {
    const io: SocketHandler
    const reader: BackedReader
    const writer: BackedWriter
    var socket: SocketHandle
    var shuttingDown: bool
    ghost var delivered: seq<Packet>
    ghost var threw: bool

    ghost predicate Valid()
      reads this, reader, reader.crypto, reader.crypto.nonce, writer, writer.crypto, writer.crypto.nonce
    {
      && reader.Valid() && writer.Valid()
      && reader.io == writer.io == io
      && reader.crypto.nonce != writer.crypto.nonce
      && reader.crypto.cipher == writer.crypto.cipher
      && reader.socket == writer.socket == socket
    }

    ghost function End(): Endpoint
      reads this, reader, reader.crypto, reader.crypto.nonce, writer, writer.crypto, writer.crypto.nonce
      requires Valid()
    {
      Endpoint(socket, shuttingDown, reader.State(), writer.State(), Idle,
               writer.accepted, delivered, threw)
    }

    /** One side of a pair, live on its first socket. */
    constructor (io: SocketHandler, cipher: Cipher, side: Side, socket: SocketHandle)
      ensures Valid() && writer.crypto.cipher == cipher && this.io == io
      ensures fresh(reader) && fresh(reader.crypto) && fresh(reader.crypto.nonce)
      ensures fresh(writer) && fresh(writer.crypto) && fresh(writer.crypto.nonce)
      ensures reader.crypto.Nonce() == NonceAt(side.Peer().Msb(), 0)
      ensures writer.msb == side.Msb()
      ensures End() == InitialEnd(side).(
                         socket := socket,
                         reader := InitialEnd(side).reader.(socket := socket),
                         writer := InitialEnd(side).writer.(socket := socket))
    {
      this.io := io;
      this.socket := socket;
      shuttingDown, delivered, threw := false, [], false;
      reader := new BackedReader(io, cipher, side.Peer().Msb(), socket);
      writer := new BackedWriter(io, cipher, side.Msb(), socket);
    }

    method CloseSocket()
      requires Valid()
      modifies this`socket, reader`socket, writer`socket, io`closed
      ensures Valid() && End() == CloseEnd(old(End()))
      ensures io.closed == old(io.closed) + if old(socket) == INVALID_SOCKET then [] else [old(socket)]
    {
      hide Value, WriterInv;
      if socket == INVALID_SOCKET {
        return;
      }
      reader.InvalidateSocket();
      writer.InvalidateSocket();
      var closing := socket;
      socket := INVALID_SOCKET;
      io.Close(closing);
    }

    method Shutdown()
      requires Valid()
      modifies this`socket, this`shuttingDown, reader`socket, writer`socket, io`closed
      ensures Valid() && End() == CloseEnd(old(End()).(shuttingDown := true))
      ensures io.closed == old(io.closed) + if old(socket) == INVALID_SOCKET then [] else [old(socket)]
    {
      shuttingDown := true;
      CloseSocket();
    }

    /**
     * False: nothing happened. True: the packet was accepted exactly once, and the connection is
     * still up only if its whole frame went out.
     */
    method Write(packet: Packet) returns (ok: bool, ghost n: nat)
      requires Valid()
      modifies this`socket, reader`socket, writer, writer.crypto.nonce, io
      ensures Valid()
      ensures ok <==> old(socket) != INVALID_SOCKET
      ensures !ok ==> End() == old(End()) && io.sent == old(io.sent)
      ensures ok ==>
                var frame := FrameToSend(writer.crypto.cipher, old(End().writer), packet);
                && n == Min(|frame|, TakenBeforeFailure(old(io.script)))
                && io.Sent(old(socket)) == old(io.Sent(socket)) + frame[..n]
                && End() == WroteEnd(writer.crypto.cipher, old(End()), packet, n)
                && io.closed == old(io.closed) + if n < |frame| then [old(socket)] else []
      ensures io.OnlySentChanged(old(socket), old(io.sent)) && io.inbox == old(io.inbox)
    {
      hide Accept, FrameToSend, WriterInv, Value, AcceptEnd, CloseEnd;
      if socket == INVALID_SOCKET {
        return false, 0;
      }
      var status;
      status, n := WriteOut(packet);
      if status == WroteWithFailure {
        CloseSocket();
      }
      ok := true;
    }

    /** The writer's part of Write, seen from the connection. */
    method WriteOut(packet: Packet) returns (status: WriteStatus, ghost n: nat)
      requires Valid() && socket != INVALID_SOCKET
      modifies writer, writer.crypto.nonce, io
      ensures Valid() && socket == old(socket)
      ensures End() == AcceptEnd(writer.crypto.cipher, old(End()), packet).(phase := Idle)
      ensures var frame := FrameToSend(writer.crypto.cipher, old(End().writer), packet);
              && n <= |frame| && (status == WroteWithFailure <==> n < |frame|)
              && n == Min(|frame|, TakenBeforeFailure(old(io.script)))
              && io.Sent(socket) == old(io.Sent(socket)) + frame[..n]
      ensures io.OnlySentChanged(socket, old(io.sent)) && io.inbox == old(io.inbox) && io.closed == old(io.closed)
    {
      hide Accept, FrameToSend, WriterInv, Value;
      status, n := writer.Write(packet);
    }

    /**
     * One read. The source's exception is the result Thrown; a broken socket is closed and
     * reported as nothing read.
     */
    method Read() returns (result: ReadResult)
      requires Valid()
      modifies this, reader, reader.crypto.nonce, writer`socket, io
      ensures Valid() && result != Broken
      ensures old(shuttingDown) ==> result == Nothing && End() == old(End())
      ensures !old(shuttingDown) ==>
                var h := old(socket);
                var o := ReaderRead(reader.crypto.cipher, old(End().reader), old(io.FeedOf(h)));
                && io.FeedOf(h) == o.feed
                && result == (if o.result == Broken then Nothing else o.result)
                && End() == (if o.result == Broken then CloseEnd(ReadEnd(old(End()), o)) else ReadEnd(old(End()), o))
                && io.closed == old(io.closed) + (if o.result == Broken then [h] else [])
      ensures old(shuttingDown) ==> io.closed == old(io.closed)
      ensures io.sent == old(io.sent) && io.OnlyInboxChanged(old(socket), old(io.inbox))
    {
      hide ReaderRead, Value, WriterInv, CloseEnd, ReadEnd;
      if shuttingDown {
        return Nothing;
      }
      result := ReadIn();
      if result == Broken {
        CloseSocket();
        result := Nothing;
      }
    }

    /** The reader's part of Read, seen from the connection. */
    method ReadIn() returns (result: ReadResult)
      requires Valid()
      modifies this`delivered, this`threw, reader, reader.crypto.nonce, io`inbox, io`script
      ensures Valid() && socket == old(socket)
      ensures var o := ReaderRead(reader.crypto.cipher, old(End().reader), old(io.FeedOf(socket)));
              && io.FeedOf(socket) == o.feed && result == o.result
              && End() == ReadEnd(old(End()), o)
      ensures result == Broken ==> socket != INVALID_SOCKET
      ensures io.OnlyInboxChanged(socket, old(io.inbox))
    {
      BrokenIsLive(reader.crypto.cipher, End().reader, io.FeedOf(socket));
      hide ReaderRead, Value, WriterInv;
      result := reader.Read();
      if result.Delivered? {
        delivered := delivered + [result.packet];
      } else if result == Thrown {
        threw := true;
      }
    }

    /**
     * A Recover that fails at any message changes nothing and closes the new socket. `header` and
     * `message` are what it sends: its reader's count, cut to 32 bits, and what the peer lacks.
     */
    method Recover(newSocket: SocketHandle, x: Exchange) returns (ok: bool, header: int, message: Option<bytes>)
      requires Valid()
      modifies this`socket, reader, writer`socket, io`closed
      ensures Valid()
      ensures header == Wrap32(old(End().reader.sequenceNumber))
      ensures message == RecoverOffer(old(End().writer), x)
      ensures ok <==> RecoverOutcome(old(End().writer), x).Some?
      ensures !ok ==> End() == old(End()) && io.closed == old(io.closed) + [newSocket]
      ensures ok ==> io.closed == old(io.closed)
                     && End() == ReviveEnd(old(End()), newSocket, RecoverOutcome(old(End().writer), x).value)
    {
      hide RecoverFrom, Encode, Decode, Value, WriterInv, Wrap32;
      ok, header, message := false, Wrap32(reader.sequenceNumber), None;
      if !x.helloSent || x.header.None? {
        io.Close(newSocket);
        return;
      }
      var recovered := writer.Recover(x.header.value);
      if recovered.Refused? {
        io.Close(newSocket);
        return;
      }
      var catchup := Encode(recovered.packets);
      if |catchup| > MAX_FRAME {
        io.Close(newSocket);
        return;
      }
      message := Some(catchup);
      if !x.catchupSent || x.catchup.None? {
        io.Close(newSocket);
        return;
      }
      var inbound := Decode(x.catchup.value);
      if inbound.None? {
        io.Close(newSocket);
        return;
      }
      socket := newSocket;
      reader.Revive(newSocket, inbound.value);
      writer.Revive(newSocket);
      ok := true;
    }

    /**
     * Retries until the packet is accepted or the connection is shut down, whatever other
     * threads do between the attempts; `returned` is false when it is still retrying after all
     * the turns given. `others` are the packets of other threads accepted meanwhile.
     */
    method WritePacket(packet: Packet, turns: seq<Turn>)
      returns (returned: bool, ghost appended: bool, ghost others: seq<Packet>)
      requires Valid()
      modifies this, reader, writer, writer.crypto.nonce, io
      ensures Valid()
      ensures writer.accepted == old(writer.accepted) + others + if appended then [packet] else []
      ensures SubsequenceOf(others, OthersOf(turns))
      ensures returned && !shuttingDown ==> appended
      ensures !returned ==> !appended && !shuttingDown && socket == INVALID_SOCKET
      ensures old(shuttingDown) ==> returned && !appended && others == []
      ensures !old(shuttingDown) && old(socket) != INVALID_SOCKET ==> appended && others == []
    {
      hide Value, WriterInv, RecoverOutcome, Accept, FrameToSend, SubsequenceOf, OthersOf;
      returned, appended, others := true, false, [];
      NoOthers(turns);
      var i := 0;
      while true
        invariant Valid() && 0 <= i <= |turns| && !appended && returned
        invariant i == 0 ==> shuttingDown == old(shuttingDown) && socket == old(socket) && others == []
        invariant i > 0 ==> !old(shuttingDown) && old(socket) == INVALID_SOCKET
        invariant writer.accepted == old(writer.accepted) + others
        invariant SubsequenceOf(others, OthersOf(turns[..i]))
        decreases |turns| - i
      {
        MoreTurns(turns, i, others);
        if shuttingDown {
          return;
        }
        var ok, _ := Write(packet);
        if ok {
          appended := true;
          return;
        }
        if i == |turns| {
          returned := false;
          return;
        }
        ghost var wrote := TakeTurn(turns[i]);
        NextTurn(turns, i, others, wrote);
        others := others + wrote;
        i := i + 1;
      }
    }

    /** What another thread does; `wrote` is its packet if it was accepted. */
    method TakeTurn(turn: Turn) returns (ghost wrote: seq<Packet>)
      requires Valid()
      modifies this, reader, writer, writer.crypto.nonce, io
      ensures Valid() && writer.accepted == old(writer.accepted) + wrote
      ensures wrote == [] || (turn.WroteOther? && wrote == [turn.packet])
    {
      hide Value, WriterInv, RecoverOutcome, Accept, FrameToSend;
      wrote := [];
      match turn {
        case Waited =>
        case Dropped => CloseSocket();
        case WasShutDown => Shutdown();
        case WasRecovered(s, x) => var _, _, _ := Recover(s, x);
        case WroteOther(p) =>
          var ok, _ := Write(p);
          wrote := if ok then [p] else [];
      }
    }
  }

  lemma NoOthers(turns: seq<Turn>)
    ensures SubsequenceOf([], OthersOf(turns[..0]))
  {
  }

  /** Turns still to come do not spoil what was accepted so far. */
  lemma {:induction false} MoreTurns(turns: seq<Turn>, i: nat, others: seq<Packet>)
    requires i <= |turns| && SubsequenceOf(others, OthersOf(turns[..i]))
    ensures SubsequenceOf(others, OthersOf(turns))
    decreases |turns| - i
  {
    if i == |turns| {
      assert turns[..i] == turns;
    } else {
      NextTurn(turns, i, others, []);
      assert others + [] == others;
      MoreTurns(turns, i + 1, others);
    }
  }

  lemma {:induction false} NextTurn(turns: seq<Turn>, i: nat, others: seq<Packet>, wrote: seq<Packet>)
    requires i < |turns| && SubsequenceOf(others, OthersOf(turns[..i]))
    requires wrote == [] || (turns[i].WroteOther? && wrote == [turns[i].packet])
    ensures SubsequenceOf(others + wrote, OthersOf(turns[..i + 1]))
  {
    hide SubsequenceOf;
    assert turns[..i + 1][..i] == turns[..i];
    assert others + [] == others && OthersOf(turns[..i]) + [] == OthersOf(turns[..i]);
    if turns[i].WroteOther? {
      SubsequenceGrows(others, OthersOf(turns[..i]), turns[i].packet);
    }
  }

  lemma BrokenIsLive(c: Cipher, r: ReaderState, f: Feed)
    ensures ReaderRead(c, r, f).result == Broken ==> r.socket != INVALID_SOCKET
  {
  }

  /** An endpoint after a Write that got n bytes of the frame out. */
  function WroteEnd(c: Cipher, e: Endpoint, p: Packet, n: nat): Endpoint {
    var e' := AcceptEnd(c, e, p).(phase := Idle);
    if n < |FrameToSend(c, e.writer, p)| then CloseEnd(e') else e'
  }

  // ---------- the client's reconnect loop ----------

  datatype ConnectStatus = NEW_CLIENT | RETURNING_CLIENT | INVALID_KEY | MISMATCHED_PROTOCOL

  /** One round of PollReconnect: the socket Connect returned, and what was heard on it. */
  datatype Attempt =
    | HandshakeThrew(socket: SocketHandle)
    | Answered(socket: SocketHandle, status: ConnectStatus, exchange: Exchange)
  {
    predicate Reconnects(w: WriterState) {
      Answered? && socket != INVALID_SOCKET && status == RETURNING_CLIENT && RecoverOutcome(w, exchange).Some?
    }

    predicate Rejected() {
      Answered? && socket != INVALID_SOCKET && status == INVALID_KEY
    }
  }

  /** The first round that ends the loop, or the number of rounds. */
  function FirstDecisive(w: WriterState, attempts: seq<Attempt>): (i: nat)
    ensures i <= |attempts|
    ensures forall j :: 0 <= j < i ==> !attempts[j].Reconnects(w) && !attempts[j].Rejected()
    ensures i < |attempts| ==> attempts[i].Reconnects(w) || attempts[i].Rejected()
  {
    if attempts == [] || attempts[0].Reconnects(w) || attempts[0].Rejected() then 0
    else 1 + FirstDecisive(w, attempts[1..])
  }

  /** The sockets of the rounds that got as far as a connection. */
  function SocketsOf(attempts: seq<Attempt>): seq<SocketHandle> {
    if attempts == [] then []
    else
      var last := attempts[|attempts| - 1].socket;
      SocketsOf(attempts[..|attempts| - 1]) + if last == INVALID_SOCKET then [] else [last]
  }

  class ClientConnection {
    const connection: Connection
    var reconnectEnabled: bool

    constructor (connection: Connection)
      ensures this.connection == connection && reconnectEnabled
    {
      this.connection := connection;
      reconnectEnabled := true;
    }

    /**
     * However many rounds fail first, and in whatever way, the endpoint is untouched by them:
     * it ends revived from the state it lost the connection in, or shut down by the server's
     * rejection, or as it was. Every socket a failed round had is closed, once.
     */
    method PollReconnect(attempts: seq<Attempt>)
      requires connection.Valid()
      modifies connection, connection.reader, connection.writer`socket, connection.io`closed
      ensures connection.Valid()
      ensures var e, w := old(connection.End()), old(connection.End().writer);
              var i := FirstDecisive(w, attempts);
              if e.socket != INVALID_SOCKET || e.shuttingDown || !reconnectEnabled then
                connection.End() == e && connection.io.closed == old(connection.io.closed)
              else
                && connection.End() == (if i == |attempts| then e else RoundEnd(e, attempts[i]))
                && connection.io.closed
                   == old(connection.io.closed) + SocketsOf(attempts[..i])
                      + if i == |attempts| then [] else RoundCloses(e, attempts[i])
    {
      hide Value, WriterInv, RecoverOutcome, RoundEnd, RoundCloses, SocketsOf, FirstDecisive;
      ghost var e := connection.End();
      FirstRound(attempts);
      var i := 0;
      while connection.socket == INVALID_SOCKET && i < |attempts|
        invariant connection.Valid() && 0 <= i <= |attempts|
        invariant connection.End() == e
        invariant i > 0 ==> e.socket == INVALID_SOCKET && !e.shuttingDown && reconnectEnabled
        invariant FirstDecisive(e.writer, attempts) == i + FirstDecisive(e.writer, attempts[i..])
        invariant connection.io.closed == old(connection.io.closed) + SocketsOf(attempts[..i])
        decreases |attempts| - i
      {
        if connection.shuttingDown || !reconnectEnabled {
          return;
        }
        OneRound(e, attempts, i);
        var decided := Round(attempts[i]);
        if decided {
          return;
        }
        i := i + 1;
      }
      NoRound(e.writer, attempts);
    }

    /** One round: connect, say who we are, and recover if the server knows us. */
    method Round(attempt: Attempt) returns (decided: bool)
      requires connection.Valid() && connection.socket == INVALID_SOCKET
      modifies connection, connection.reader, connection.writer`socket, connection.io`closed
      ensures connection.Valid()
      ensures decided <==> attempt.Reconnects(old(connection.End().writer)) || attempt.Rejected()
      ensures connection.End() == RoundEnd(old(connection.End()), attempt)
      ensures connection.io.closed
           == old(connection.io.closed) + RoundCloses(old(connection.End()), attempt)
    {
      hide Value, WriterInv, RecoverOutcome;
      decided := false;
      var newSocket := attempt.socket;
      if newSocket == INVALID_SOCKET {
        return;
      }
      match attempt {
        case HandshakeThrew(_) => connection.io.Close(newSocket);
        case Answered(_, status, exchange) =>
          if status == INVALID_KEY {
            connection.io.Close(newSocket);
            connection.shuttingDown := true;
            return true;
          }
          if status != RETURNING_CLIENT {
            connection.io.Close(newSocket);
          } else {
            var ok, _, _ := connection.Recover(newSocket, exchange);
            decided := ok;
          }
      }
    }
  }

  /** The endpoint after one round. */
  function RoundEnd(e: Endpoint, attempt: Attempt): Endpoint {
    if attempt.Rejected() then e.(shuttingDown := true)
    else if attempt.Reconnects(e.writer) then
      ReviveEnd(e, attempt.socket, RecoverOutcome(e.writer, attempt.exchange).value)
    else e
  }

  /**
   * Only a rejected key shuts the connection down, only a known client that recovers is revived,
   * and every other round leaves it alone; a socket that is not used is closed.
   */
  lemma {:induction false} RoundByStatus(e: Endpoint, socket: SocketHandle, status: ConnectStatus, x: Exchange)
    requires socket != INVALID_SOCKET
    ensures var round := Answered(socket, status, x);
            match status
            case INVALID_KEY => RoundEnd(e, round) == e.(shuttingDown := true) && RoundCloses(e, round) == [socket]
            case RETURNING_CLIENT =>
              (match RecoverOutcome(e.writer, x)
               case None => RoundEnd(e, round) == e && RoundCloses(e, round) == [socket]
               case Some(ps) => RoundEnd(e, round) == ReviveEnd(e, socket, ps) && RoundCloses(e, round) == [])
            case _ => RoundEnd(e, round) == e && RoundCloses(e, round) == [socket]
    ensures RoundEnd(e, HandshakeThrew(socket)) == e && RoundCloses(e, HandshakeThrew(socket)) == [socket]
    ensures RoundEnd(e, Answered(INVALID_SOCKET, status, x)) == e
    ensures RoundCloses(e, Answered(INVALID_SOCKET, status, x)) == []
  {
    hide RecoverOutcome, ReviveEnd;
  }

  /** The new socket is closed unless the connection lives on it. */
  function RoundCloses(e: Endpoint, attempt: Attempt): seq<SocketHandle> {
    if attempt.socket == INVALID_SOCKET || attempt.Reconnects(e.writer) then [] else [attempt.socket]
  }

  lemma {:induction false} FirstRound(attempts: seq<Attempt>)
    ensures attempts[0..] == attempts && SocketsOf(attempts[..0]) == []
  {
  }

  lemma {:induction false} NoRound(w: WriterState, attempts: seq<Attempt>)
    ensures FirstDecisive(w, attempts[|attempts|..]) == 0
  {
  }

  lemma {:induction false} OneRound(e: Endpoint, attempts: seq<Attempt>, i: nat)
    requires i < |attempts|
    ensures if attempts[i].Reconnects(e.writer) || attempts[i].Rejected() then
              FirstDecisive(e.writer, attempts[i..]) == 0
            else
              && SocketsOf(attempts[..i + 1]) == SocketsOf(attempts[..i]) + RoundCloses(e, attempts[i])
              && FirstDecisive(e.writer, attempts[i..]) == 1 + FirstDecisive(e.writer, attempts[i + 1..])
              && RoundEnd(e, attempts[i]) == e
  {
    assert attempts[..i + 1][..i] == attempts[..i];
    assert attempts[i..][1..] == attempts[i + 1..];
  }
}
