/**
 * Two endpoints, each a Connection with its reader and writer, joined by any number of TCP
 * connections that can die at any byte. One step is what one endpoint does without releasing
 * the locks its peer could notice: accept a packet, one `send`, one call of Read, a close, or
 * one message of Recover.
 */
module Recovery {
  import opened Bytes
  import opened Packets
  import opened Nonces
  import opened SocketIo
  import opened BackedWriters
  import opened BackedReaders
  import opened Catchup

  datatype Side = Client | Server {
    /** The top nonce byte of what this side writes. */
    function Msb(): byte {
      if this == Client then CLIENT_SERVER_NONCE_MSB else SERVER_CLIENT_NONCE_MSB
    }

    function Peer(): Side {
      if this == Client then Server else Client
    }
  }

  /** Where a thread holding the connection's mutex is. */
  datatype Phase =
    | Idle
    | Writing(rest: bytes)
    | SentHello(conn: nat)
    | GotHello(conn: nat, remote: int)
    | SentCatchup(conn: nat)
  {
    predicate Recovering() {
      SentHello? || GotHello? || SentCatchup?
    }

    function Rest(): bytes {
      if Writing? then rest else []
    }
  }

  /** One Connection. `accepted`, `delivered` and `threw` record what its callers have seen. */
  datatype Endpoint = Endpoint(
    socket: SocketHandle,
    shuttingDown: bool,
    reader: ReaderState,
    writer: WriterState,
    phase: Phase,
    accepted: seq<Packet>,
    delivered: seq<Packet>,
    threw: bool)

  /**
   * What one side has put on one TCP connection: its sequence header, its catch-up message and
   * then frames. `sent` is every byte of the frames and `flight` those the peer has not read.
   * `hello` is the 64-bit count behind the header; `base` is the writer's count at the catch-up.
   */
  datatype Channel = Channel(
    hello: Option<int>,
    catchup: Option<bytes>,
    base: nat,
    sent: bytes,
    flight: bytes)
  {
    function Got(): int {
      |sent| - |flight|
    }
  }

  /**
   * The system as one side sees it: itself, its peer, and for each TCP connection made so far
   * what it sent and what its peer sent. A state is the client's view.
   */
  datatype View = View(near: Endpoint, far: Endpoint, out: seq<Channel>, inc: seq<Channel>) {
    function From(side: Side): View {
      if side == Client then this else View(far, near, inc, out)
    }
  }

  datatype Step =
    | Connect
    | StartWrite(side: Side, packet: Packet)
    | Send(side: Side, rc: int)
    | Read(side: Side, rc1: int, rc2: int)
    | Close(side: Side)
    | Shutdown(side: Side)
    | SendHello(side: Side, conn: nat)
    | RecvHello(side: Side)
    | SendCatchup(side: Side)
    | RecvCatchup(side: Side)
    | RecoverFails(side: Side)

  const FRESH_CHANNEL := Channel(None, None, 0, [], [])

  /** The first connection has no Recover: both sides start at zero on it. */
  const FIRST_CHANNEL := Channel(Some(0), Some([]), 0, [], [])

  function InitialEnd(side: Side): Endpoint {
    Endpoint(
      0, false,
      ReaderState(0, 0, [], [], NonceAt(side.Peer().Msb(), 0)),
      WriterState(0, [], 0, 0, NonceAt(side.Msb(), 0)),
      Idle, [], [], false)
  }

  function Initial(): View {
    View(InitialEnd(Client), InitialEnd(Server), [FIRST_CHANNEL], [FIRST_CHANNEL])
  }

  // ---------- what the steps do to one endpoint ----------

  function CloseEnd(e: Endpoint): Endpoint {
    if e.socket == INVALID_SOCKET then e
    else
      e.(socket := INVALID_SOCKET,
         reader := e.reader.(socket := INVALID_SOCKET),
         writer := e.writer.(socket := INVALID_SOCKET))
  }

  function AcceptEnd(c: Cipher, e: Endpoint, p: Packet): Endpoint {
    e.(writer := Accept(c, e.writer, p),
       accepted := e.accepted + [p],
       phase := Writing(FrameToSend(c, e.writer, p)))
  }

  function ReadEnd(e: Endpoint, o: ReadOutcome): Endpoint {
    e.(reader := o.reader,
       delivered := if o.result.Delivered? then e.delivered + [o.result.packet] else e.delivered,
       threw := e.threw || o.result == Thrown)
  }

  function ReviveEnd(e: Endpoint, socket: SocketHandle, inbound: seq<bytes>): Endpoint {
    e.(socket := socket,
       reader := ReviveReader(e.reader, socket, inbound),
       writer := e.writer.(socket := socket),
       phase := Idle)
  }

  // ---------- the steps, each in the view of the side that takes it ----------

  function DoConnect(s: View): View {
    s.(out := s.out + [FRESH_CHANNEL], inc := s.inc + [FRESH_CHANNEL])
  }

  function DoStartWrite(c: Cipher, s: View, p: Packet): Option<View> {
    var e := s.near;
    if !e.phase.Idle? then None
    else if e.socket == INVALID_SOCKET || e.writer.socket == INVALID_SOCKET then Some(s)
    else Some(s.(near := AcceptEnd(c, e, p)))
  }

  /** One `send` of the write loop; a negative result ends the write and closes the socket. */
  function DoSend(s: View, rc: int): Option<View> {
    var e, k := s.near, s.near.writer.socket;
    if !e.phase.Writing? || !(0 <= k < |s.out|) then None
    else if rc < 0 then Some(s.(near := CloseEnd(e.(phase := Idle))))
    else
      var n := Clip(rc, |e.phase.rest|);
      var data, rest := e.phase.rest[..n], e.phase.rest[n..];
      Some(s.(near := e.(phase := if rest == [] then Idle else Writing(rest)),
              out := s.out[k := SendOn(s.out[k], data)]))
  }

  function SendOn(ch: Channel, data: bytes): Channel {
    ch.(sent := ch.sent + data, flight := ch.flight + data)
  }

  /** One call of Read. It needs the reader's recover mutex, which Recover holds throughout. */
  function DoRead(c: Cipher, s: View, rc1: int, rc2: int): Option<View> {
    var e, k := s.near, s.near.reader.socket;
    if e.phase.Recovering() then None
    else if e.shuttingDown || k == INVALID_SOCKET then Some(s)
    else if !(0 <= k < |s.inc|) then None
    else
      var o := ReaderRead(c, e.reader, Feed(s.inc[k].flight, [rc1, rc2]));
      Some(s.(near := ReadEnd(e, o), inc := s.inc[k := s.inc[k].(flight := o.feed.inbox)]))
  }

  function DoClose(s: View, shutdown: bool): Option<View> {
    var e := s.near;
    if !e.phase.Idle? then None
    else Some(s.(near := CloseEnd(e.(shuttingDown := e.shuttingDown || shutdown))))
  }

  /** Recover's first message. Each side runs Recover on a connection at most once. */
  function DoSendHello(s: View, k: nat): Option<View> {
    var e := s.near;
    if !e.phase.Idle? || k >= |s.out| || s.out[k].hello.Some? then None
    else
      Some(s.(near := e.(phase := SentHello(k)),
              out := s.out[k := s.out[k].(hello := Some(e.reader.sequenceNumber))]))
  }

  /** The header is an int32 on the wire. */
  function DoRecvHello(s: View): Option<View> {
    var e := s.near;
    if !e.phase.SentHello? || e.phase.conn >= |s.inc| || s.inc[e.phase.conn].hello.None? then None
    else Some(s.(near := e.(phase := GotHello(e.phase.conn, Wrap32(s.inc[e.phase.conn].hello.value)))))
  }

  /** A refused replay, or a message over the limit, fails Recover. */
  function DoSendCatchup(s: View): Option<View> {
    var e := s.near;
    if !e.phase.GotHello? || e.phase.conn >= |s.out| then None
    else
      var k := e.phase.conn;
      match RecoverFrom(e.writer, e.phase.remote)
      case Refused => Some(s.(near := e.(phase := Idle)))
      case Replay(ps) =>
        if |Encode(ps)| > MAX_FRAME then Some(s.(near := e.(phase := Idle)))
        else
          Some(s.(near := e.(phase := SentCatchup(k)),
                  out := s.out[k := s.out[k].(catchup := Some(Encode(ps)), base := |e.accepted|)]))
  }

  function DoRecvCatchup(s: View): Option<View> {
    var e := s.near;
    if !e.phase.SentCatchup? || e.phase.conn >= |s.inc| || s.inc[e.phase.conn].catchup.None? then None
    else
      match Decode(s.inc[e.phase.conn].catchup.value)
      case None => Some(s.(near := e.(phase := Idle)))
      case Some(ps) => Some(s.(near := ReviveEnd(e, e.phase.conn, ps)))
  }

  function DoRecoverFails(s: View): Option<View> {
    if !s.near.phase.Recovering() then None
    else Some(s.(near := s.near.(phase := Idle)))
  }

  function Do(c: Cipher, s: View, st: Step): Option<View> {
    match st
    case Connect => Some(DoConnect(s))
    case StartWrite(_, p) => DoStartWrite(c, s, p)
    case Send(_, rc) => DoSend(s, rc)
    case Read(_, rc1, rc2) => DoRead(c, s, rc1, rc2)
    case Close(_) => DoClose(s, false)
    case Shutdown(_) => DoClose(s, true)
    case SendHello(_, k) => DoSendHello(s, k)
    case RecvHello(_) => DoRecvHello(s)
    case SendCatchup(_) => DoSendCatchup(s)
    case RecvCatchup(_) => DoRecvCatchup(s)
    case RecoverFails(_) => DoRecoverFails(s)
  }

  function By(st: Step): Side {
    if st.Connect? then Client else st.side
  }

  /** None: the step is not possible in this state. */
  function Next(c: Cipher, s: View, st: Step): Option<View> {
    match Do(c, s.From(By(st)), st)
    case None => None
    case Some(s') => Some(s'.From(By(st)))
  }

  /** The state after a list of steps, or None if one of them was not possible. */
  function Exec(c: Cipher, s: View, steps: seq<Step>): Option<View>
    decreases |steps|
  {
    if steps == [] then Some(s)
    else
      match Next(c, s, steps[0])
      case None => None
      case Some(s') => Exec(c, s', steps[1..])
  }
}
