/** The invariant of the two-endpoint system, and that every step keeps it. */
module RecoveryInvariant {
  import opened Bytes
  import opened Packets
  import opened Nonces
  import opened SocketIo
  import opened BackedWriters
  import opened BackedReaders
  import opened Catchup
  import opened Recovery

  /** What is in flight is the last part of what was sent. */
  predicate TailOf(sent: bytes, flight: bytes) {
    |flight| <= |sent| && flight == sent[|sent| - |flight|..]
  }

  /** What was sent is a start of the frames from `base` on. */
  predicate FramesFrom(h: seq<bytes>, base: nat, sent: bytes) {
    base <= |h| && sent <= FrameCat(h[base..])
  }

  /**
   * One direction of one connection. `h` is the sender's history, `ch` what it sent on this
   * connection, `back` what the receiver sent on it.
   */
  ghost predicate ChanInv(h: seq<bytes>, ch: Channel, back: Channel) {
    && TailOf(ch.sent, ch.flight)
    && FramesFrom(h, ch.base, ch.sent)
    && (ch.catchup.None? ==> ch.sent == [])
    && (back.hello.Some? ==> 0 <= back.hello.value <= |h|)
    && (back.hello.None? ==> ch.flight == ch.sent)
    && (ch.catchup.Some? ==>
          && ch.hello.Some? && back.hello.Some?
          && back.hello.value <= ch.base
          && ch.catchup.value == Encode(h[back.hello.value..ch.base]))
  }

  ghost predicate Chans(h: seq<bytes>, out: seq<Channel>, inc: seq<Channel>) {
    && |out| == |inc|
    && forall k :: 0 <= k < |out| ==> ChanInv(h, out[k], inc[k])
  }

  /** The stream of the writer's live connection is whole frames, the last one maybe under way. */
  ghost predicate LiveWriter(h: seq<bytes>, socket: SocketHandle, rest: bytes, out: seq<Channel>) {
    0 <= socket < |out| ==>
      && out[socket].catchup.Some?
      && out[socket].base <= |h|
      && out[socket].sent + rest == FrameCat(h[out[socket].base..])
  }

  /** The reader has consumed exactly the frames it counted, and a part of the next. */
  ghost predicate LiveReader(h: seq<bytes>, r: ReaderState, out: seq<Channel>) {
    0 <= r.socket < |out| ==>
      && out[r.socket].catchup.Some?
      && |out[r.socket].flight| <= |out[r.socket].sent|
      && StreamInv(h, out[r.socket].base, r, out[r.socket].sent, out[r.socket].Got())
  }

  /** An endpoint's three socket fields agree, and how far it is in Recover. */
  ghost predicate EndInv(e: Endpoint, out: seq<Channel>, inc: seq<Channel>) {
    && e.writer.socket == e.socket == e.reader.socket
    && |out| == |inc| && -1 <= e.socket < |out|
    && (e.phase.Writing? ==> e.phase.rest != [] && e.socket != INVALID_SOCKET)
    && (e.phase.Recovering() ==>
          e.phase.conn < |out| && RecoverInv(e, e.phase.conn, out[e.phase.conn], inc[e.phase.conn]))
  }

  ghost predicate RecoverInv(e: Endpoint, k: nat, own: Channel, inc: Channel) {
    && e.socket != k
    && own.hello == Some(e.reader.sequenceNumber)
    && own.sent == [] && inc.flight == inc.sent
    && (!e.phase.SentCatchup? ==> own.catchup.None?)
    && (e.phase.GotHello? ==> inc.hello.Some? && e.phase.remote == Wrap32(inc.hello.value))
    && (e.phase.SentCatchup? ==>
          own.catchup.Some? && own.base == |e.accepted| && e.socket == INVALID_SOCKET)
  }

  ghost predicate OnlyOversizeThrows(h: seq<bytes>, threw: bool) {
    threw ==> exists i :: 0 <= i < |h| && |h[i]| > MAX_FRAME
  }

  /** The counters, nonces, queues and logs of the direction from e to r. */
  ghost predicate Books(c: Cipher, msb: byte, e: Endpoint, r: Endpoint) {
    var h := History(c, msb, e.accepted);
    && WriterInv(c, msb, e.writer, e.accepted)
    && ReaderInv(msb, r.reader, h, PlainAll(e.accepted), r.delivered)
    && OnlyOversizeThrows(h, r.threw)
  }

  /** The connections, given the two histories. */
  ghost predicate Link(h: seq<bytes>, hb: seq<bytes>, s: View) {
    && EndInv(s.near, s.out, s.inc)
    && EndInv(s.far, s.inc, s.out)
    && Chans(h, s.out, s.inc)
    && Chans(hb, s.inc, s.out)
    && LiveWriter(h, s.near.socket, s.near.phase.Rest(), s.out)
    && LiveWriter(hb, s.far.socket, s.far.phase.Rest(), s.inc)
    && LiveReader(h, s.far.reader, s.out)
    && LiveReader(hb, s.near.reader, s.inc)
  }

  /** The whole invariant, in the view of the side whose writer starts at nonce byte m. */
  ghost predicate ViewInv(c: Cipher, m: byte, n: byte, s: View) {
    && Books(c, m, s.near, s.far)
    && Books(c, n, s.far, s.near)
    && Link(History(c, m, s.near.accepted), History(c, n, s.far.accepted), s)
  }

  ghost predicate Inv(c: Cipher, s: View) {
    ViewInv(c, Client.Msb(), Server.Msb(), s)
  }

  /** No accepted packet is so long that its length overflows the 32-bit frame header. */
  ghost predicate Framable(c: Cipher, m: byte, n: byte, s: View) {
    AllFramed(History(c, m, s.near.accepted)) && AllFramed(History(c, n, s.far.accepted))
  }

  lemma {:induction false} InitialInv(c: Cipher)
    ensures Inv(c, Initial())
  {
    assert History(c, Client.Msb(), []) == History(c, Server.Msb(), []) == [];
    InitialBooks(c, Client, InitialEnd(Client), InitialEnd(Server));
    InitialBooks(c, Server, InitialEnd(Server), InitialEnd(Client));
    hide Books, Link;
    InitialLink();
  }

  lemma {:induction false} InitialBooks(c: Cipher, a: Side, e: Endpoint, r: Endpoint)
    requires e == InitialEnd(a) && r == InitialEnd(a.Peer())
    ensures Books(c, a.Msb(), e, r)
  {
    assert a.Peer().Peer() == a;
    assert History(c, a.Msb(), []) == [] && Newest(c, a.Msb(), []) == [] && PlainAll([]) == [];
  }

  lemma {:induction false} InitialLink()
    ensures Link([], [], Initial())
  {
    var channels := [FIRST_CHANNEL];
    InitialChannels([], channels);
    InitialLive([], InitialEnd(Client).reader);
    InitialLive([], InitialEnd(Server).reader);
    InitialSockets(Client, channels);
    InitialSockets(Server, channels);
    hide EndInv, Chans, LiveWriter, LiveReader, NonceAt;
  }

  lemma {:induction false} InitialSockets(a: Side, channels: seq<Channel>)
    requires |channels| == 1
    ensures EndInv(InitialEnd(a), channels, channels)
  {
    hide RecoverInv, NonceAt;
  }

  lemma {:induction false} InitialChannels(h: seq<bytes>, channels: seq<Channel>)
    requires h == [] && channels == [FIRST_CHANNEL]
    ensures Chans(h, channels, channels)
  {
    InitialChannel(h);
    hide ChanInv;
  }

  lemma {:induction false} NothingYet(h: seq<bytes>)
    requires h == []
    ensures h[0..] == h[0..0] == [] && FrameCat(h[0..]) == FrameCat(h[0..0]) == [] && Encode(h[0..0]) == []
  {
    assert h[0..] == [] && h[0..0] == [];
  }

  lemma {:induction false} InitialChannel(h: seq<bytes>)
    requires h == []
    ensures ChanInv(h, FIRST_CHANNEL, FIRST_CHANNEL)
  {
    NothingYet(h);
    hide FrameCat, Encode;
  }

  lemma {:induction false} InitialLive(h: seq<bytes>, r: ReaderState)
    requires h == [] && r.socket == 0 && r.sequenceNumber == 0 && r.partial == []
    ensures LiveWriter(h, 0, [], [FIRST_CHANNEL]) && LiveReader(h, r, [FIRST_CHANNEL])
  {
    NothingYet(h);
    hide FrameCat, Encode, FrameOf;
    var sent: bytes := [];
    assert sent[..0] == [] + r.partial;
  }

  // ---------- histories only grow ----------

  lemma {:induction false} FramesGrow(h: seq<bytes>, h': seq<bytes>, base: nat)
    requires h <= h' && base <= |h|
    ensures FrameCat(h[base..]) <= FrameCat(h'[base..])
  {
    assert h'[base..] == h[base..] + h'[|h|..];
    FrameCatAppend(h[base..], h'[|h|..]);
  }

  lemma {:induction false} ChanInvGrows(h: seq<bytes>, h': seq<bytes>, ch: Channel, back: Channel)
    requires ChanInv(h, ch, back) && h <= h'
    ensures ChanInv(h', ch, back)
  {
    hide FrameCat, Encode;
    FramesGrow(h, h', ch.base);
    if ch.catchup.Some? {
      assert h'[back.hello.value..ch.base] == h[back.hello.value..ch.base];
    }
  }

  lemma {:induction false} ChansGrow(h: seq<bytes>, h': seq<bytes>, out: seq<Channel>, inc: seq<Channel>)
    requires Chans(h, out, inc) && h <= h'
    ensures Chans(h', out, inc)
  {
    forall k | 0 <= k < |out|
      ensures ChanInv(h', out[k], inc[k])
    {
      ChanInvGrows(h, h', out[k], inc[k]);
    }
  }

  lemma {:induction false} LiveReaderGrows(h: seq<bytes>, h': seq<bytes>, r: ReaderState, out: seq<Channel>)
    requires LiveReader(h, r, out) && h <= h'
    ensures LiveReader(h', r, out)
  {
    hide FrameCat, FrameOf;
    if 0 <= r.socket < |out| {
      var base := out[r.socket].base;
      FramesGrow(h, h', base);
      assert h'[base..r.sequenceNumber] == h[base..r.sequenceNumber];
    }
  }

  lemma {:induction false} ReaderInvGrows(
    msb: byte, r: ReaderState, h: seq<bytes>, h': seq<bytes>, plain: seq<Packet>, plain': seq<Packet>,
    delivered: seq<Packet>)
    requires ReaderInv(msb, r, h, plain, delivered)
    requires h <= h' && plain <= plain' && |h'| == |plain'|
    ensures ReaderInv(msb, r, h', plain', delivered)
  {
    assert h'[|delivered|..r.sequenceNumber] == h[|delivered|..r.sequenceNumber];
  }

  // ---------- one channel changes ----------

  lemma {:induction false} ChansSet(h: seq<bytes>, out: seq<Channel>, inc: seq<Channel>, k: nat, ch: Channel)
    requires Chans(h, out, inc) && k < |out| && ChanInv(h, ch, inc[k])
    ensures Chans(h, out[k := ch], inc)
  {
  }

  lemma {:induction false} ChansSetBack(h: seq<bytes>, out: seq<Channel>, inc: seq<Channel>, k: nat, back: Channel)
    requires Chans(h, out, inc) && k < |out| && ChanInv(h, out[k], back)
    ensures Chans(h, out, inc[k := back])
  {
  }

  // ---------- steps that move no packet ----------

  /** The books do not depend on sockets, phases or connections. */
  ghost predicate SameBooks(e: Endpoint, e': Endpoint) {
    && e'.accepted == e.accepted && e'.delivered == e.delivered && e'.threw == e.threw
    && e'.writer == e.writer.(socket := e'.writer.socket)
    && e'.reader == e.reader.(socket := e'.reader.socket)
  }

  lemma {:induction false} SameBooksKeep(c: Cipher, m: byte, n: byte, s: View, s': View)
    requires ViewInv(c, m, n, s)
    requires SameBooks(s.near, s'.near) && s'.far == s.far
    requires Link(History(c, m, s.near.accepted), History(c, n, s.far.accepted), s')
    ensures ViewInv(c, m, n, s')
  {
    hide Link;
    SameBooksAsWriter(c, m, s.near, s'.near, s.far);
    SameBooksAsReader(c, n, s.far, s.near, s'.near);
    hide Books;
  }

  lemma {:induction false} SameBooksAsWriter(c: Cipher, m: byte, e: Endpoint, e': Endpoint, r: Endpoint)
    requires Books(c, m, e, r) && SameBooks(e, e')
    ensures Books(c, m, e', r)
  {
    hide LongestFitting, Newest, History, ReaderInv, OnlyOversizeThrows;
  }

  lemma {:induction false} SameBooksAsReader(c: Cipher, n: byte, e: Endpoint, r: Endpoint, r': Endpoint)
    requires Books(c, n, e, r) && SameBooks(r, r')
    ensures Books(c, n, e, r')
  {
    hide WriterInv, History, OnlyOversizeThrows;
  }

  lemma {:induction false} ChansConnect(h: seq<bytes>, out: seq<Channel>, inc: seq<Channel>)
    requires Chans(h, out, inc)
    ensures Chans(h, out + [FRESH_CHANNEL], inc + [FRESH_CHANNEL])
  {
    assert [] <= FrameCat(h[0..]);
  }

  lemma {:induction false} ConnectKeeps(h: seq<bytes>, hb: seq<bytes>, s: View)
    requires Link(h, hb, s)
    ensures Link(h, hb, DoConnect(s))
  {
    hide FrameCat, FrameOf, StreamInv, ChanInv;
    ChansConnect(h, s.out, s.inc);
    ChansConnect(hb, s.inc, s.out);
  }

  lemma {:induction false} CloseKeeps(h: seq<bytes>, hb: seq<bytes>, s: View, e: Endpoint)
    requires Link(h, hb, s)
    requires e == s.near.(shuttingDown := e.shuttingDown, phase := Idle)
    requires !s.near.phase.Recovering()
    ensures Link(h, hb, s.(near := CloseEnd(e)))
  {
    hide FrameCat, FrameOf, ChanInv, StreamInv, RecoverInv;
  }

  lemma {:induction false} RecoverFailsKeeps(h: seq<bytes>, hb: seq<bytes>, s: View)
    requires Link(h, hb, s) && s.near.phase.Recovering()
    ensures Link(h, hb, s.(near := s.near.(phase := Idle)))
  {
    hide FrameCat, FrameOf, ChanInv, StreamInv, RecoverInv;
  }

  lemma {:induction false} RecvHelloKeeps(h: seq<bytes>, hb: seq<bytes>, s: View)
    requires Link(h, hb, s) && DoRecvHello(s).Some?
    ensures Link(h, hb, DoRecvHello(s).value)
  {
    hide FrameCat, FrameOf, ChanInv, StreamInv;
  }

  lemma {:induction false} EndInvSetBack(e: Endpoint, out: seq<Channel>, inc: seq<Channel>, k: nat, back: Channel)
    requires EndInv(e, out, inc) && k < |inc|
    requires e.phase.Recovering() && e.phase.conn == k ==> RecoverInv(e, k, out[k], back)
    ensures EndInv(e, out, inc[k := back])
  {
  }

  lemma {:induction false} LiveReaderSet(h: seq<bytes>, r: ReaderState, out: seq<Channel>, k: nat, ch: Channel)
    requires LiveReader(h, r, out) && k < |out|
    requires r.socket == k && out[k].catchup.Some? ==>
               && ch.catchup == out[k].catchup && ch.base == out[k].base
               && out[k].sent <= ch.sent && ch.Got() == out[k].Got() && |ch.flight| <= |ch.sent|
               && ch.sent <= FrameCat(h[ch.base..])
    ensures LiveReader(h, r, out[k := ch])
  {
    if r.socket == k {
      assert ch.sent[..ch.Got()] == out[k].sent[..ch.Got()];
    }
  }

  /** One channel of the stepping side is rewritten. */
  lemma {:induction false} OneChannelChanges(
    h: seq<bytes>, hb: seq<bytes>, s: View, e': Endpoint, k: nat, own: Channel)
    requires Link(h, hb, s) && k < |s.out|
    requires e'.reader == s.near.reader
    requires ChanInv(h, own, s.inc[k]) && ChanInv(hb, s.inc[k], own)
    requires EndInv(e', s.out[k := own], s.inc)
    requires s.far.phase.Recovering() && s.far.phase.conn == k ==> RecoverInv(s.far, k, s.inc[k], own)
    requires LiveWriter(h, e'.socket, e'.phase.Rest(), s.out[k := own])
    requires s.far.reader.socket == k && s.out[k].catchup.Some? ==>
               && own.catchup == s.out[k].catchup && own.base == s.out[k].base
               && s.out[k].sent <= own.sent && own.Got() == s.out[k].Got()
    ensures Link(h, hb, s.(near := e', out := s.out[k := own]))
  {
    ChansSet(h, s.out, s.inc, k, own);
    ChansSetBack(hb, s.inc, s.out, k, own);
    EndInvSetBack(s.far, s.inc, s.out, k, own);
    LiveReaderSet(h, s.far.reader, s.out, k, own);
  }

  /** A channel without a hello has nothing else, and no catch-up answers it. */
  lemma {:induction false} HelloChannel(h: seq<bytes>, hb: seq<bytes>, own: Channel, inc: Channel, n: nat)
    requires ChanInv(h, own, inc) && ChanInv(hb, inc, own) && own.hello.None? && n <= |hb|
    ensures own.catchup.None? && own.sent == [] && inc.catchup.None? && inc.flight == inc.sent
    ensures ChanInv(h, own.(hello := Some(n)), inc) && ChanInv(hb, inc, own.(hello := Some(n)))
  {
    hide TailOf, FramesFrom, Encode;
  }

  lemma {:induction false} SendHelloKeeps(h: seq<bytes>, hb: seq<bytes>, s: View, k: nat)
    requires Link(h, hb, s) && DoSendHello(s, k).Some?
    requires 0 <= s.near.reader.sequenceNumber <= |hb|
    ensures Link(h, hb, DoSendHello(s, k).value)
  {
    var e := s.near;
    var own := s.out[k].(hello := Some(e.reader.sequenceNumber));
    assert ChanInv(h, s.out[k], s.inc[k]) && ChanInv(hb, s.inc[k], s.out[k]);
    hide FrameCat, FrameOf, ChanInv, StreamInv, Chans;
    HelloChannel(h, hb, s.out[k], s.inc[k], e.reader.sequenceNumber);
    assert RecoverInv(e.(phase := SentHello(k)), k, own, s.inc[k]);
    OneChannelChanges(h, hb, s, e.(phase := SentHello(k)), k, own);
  }

  /** The catch-up is sent on a channel that has carried nothing but the hello. */
  lemma {:induction false} CatchupChannel(h: seq<bytes>, hb: seq<bytes>, own: Channel, inc: Channel, msg: bytes)
    requires ChanInv(h, own, inc) && ChanInv(hb, inc, own) && own.hello.Some? && own.catchup.None?
    requires inc.hello.Some? && msg == Encode(h[inc.hello.value..|h|])
    ensures own.sent == []
    ensures var own' := own.(catchup := Some(msg), base := |h|);
            ChanInv(h, own', inc) && ChanInv(hb, inc, own')
  {
    assert FramesFrom(h, |h|, []);
    hide TailOf, FramesFrom, Encode;
  }

  lemma {:induction false} CatchupSentKeeps(h: seq<bytes>, hb: seq<bytes>, s: View, k: nat, msg: bytes)
    requires Link(h, hb, s) && s.near.phase.GotHello? && s.near.phase.conn == k
    requires s.near.socket == INVALID_SOCKET && |h| == |s.near.accepted|
    requires s.inc[k].hello.Some? && 0 <= s.inc[k].hello.value <= |h|
    requires msg == Encode(h[s.inc[k].hello.value..|h|])
    ensures Link(h, hb,
              s.(near := s.near.(phase := SentCatchup(k)),
                 out := s.out[k := s.out[k].(catchup := Some(msg), base := |s.near.accepted|)]))
  {
    var e, own := s.near, s.out[k].(catchup := Some(msg), base := |s.near.accepted|);
    assert ChanInv(h, s.out[k], s.inc[k]) && ChanInv(hb, s.inc[k], s.out[k]);
    hide FrameCat, FrameOf, ChanInv, StreamInv, Chans, Encode;
    CatchupChannel(h, hb, s.out[k], s.inc[k], msg);
    assert RecoverInv(e.(phase := SentCatchup(k)), k, own, s.inc[k]);
    OneChannelChanges(h, hb, s, e.(phase := SentCatchup(k)), k, own);
  }

  /** The catch-up message is the history from the peer's true count on. */
  lemma {:induction false} ReplayIsMissingSuffix(c: Cipher, m: byte, w: WriterState, accepted: seq<Packet>, r: int)
    requires WriterInv(c, m, w, accepted) && 0 <= r <= |accepted|
    ensures RecoverFrom(w, Wrap32(r)).Replay?
            ==> RecoverFrom(w, Wrap32(r)).packets == History(c, m, accepted)[r..|accepted|]
                && w.socket == INVALID_SOCKET
  {
    WrappedHeaderFailsClosed(c, m, w, accepted, r);
    RecoverIsHistorySuffix(c, m, w, accepted, r);
    assert History(c, m, accepted)[r..] == History(c, m, accepted)[r..|accepted|];
  }

  lemma {:induction false} SendCatchupKeeps(
    c: Cipher, m: byte, h: seq<bytes>, hb: seq<bytes>, s: View)
    requires Link(h, hb, s) && DoSendCatchup(s).Some?
    requires WriterInv(c, m, s.near.writer, s.near.accepted) && h == History(c, m, s.near.accepted)
    ensures Link(h, hb, DoSendCatchup(s).value)
  {
    var e := s.near;
    var k, replay := e.phase.conn, RecoverFrom(e.writer, e.phase.remote);
    if replay.Refused? || |Encode(replay.packets)| > MAX_FRAME {
      RecoverFailsKeeps(h, hb, s);
    } else {
      assert ChanInv(h, s.out[k], s.inc[k]);
      ReplayIsMissingSuffix(c, m, e.writer, e.accepted, s.inc[k].hello.value);
      CatchupSentKeeps(h, hb, s, k, Encode(replay.packets));
    }
  }

  lemma {:induction false} SendOnKeepsChan(h: seq<bytes>, ch: Channel, back: Channel, data: bytes, rest: bytes)
    requires ChanInv(h, ch, back) && ch.catchup.Some?
    requires ch.sent + (data + rest) == FrameCat(h[ch.base..])
    ensures ChanInv(h, SendOn(ch, data), back)
    ensures SendOn(ch, data).sent + rest == FrameCat(h[ch.base..])
    ensures ch.sent <= SendOn(ch, data).sent && SendOn(ch, data).Got() == ch.Got()
  {
    var own := SendOn(ch, data);
    assert own.sent + rest == ch.sent + (data + rest);
    assert own.sent == FrameCat(h[ch.base..])[..|own.sent|];
    assert own.flight == own.sent[|own.sent| - |own.flight|..];
  }

  lemma {:induction false} SendKeeps(h: seq<bytes>, hb: seq<bytes>, s: View, rc: int)
    requires Link(h, hb, s) && DoSend(s, rc).Some?
    ensures Link(h, hb, DoSend(s, rc).value)
  {
    hide FrameCat, FrameOf, Chans, LiveWriter, LiveReader, RecoverInv;
    var e := s.near;
    if rc < 0 {
      CloseKeeps(h, hb, s, e.(phase := Idle));
    } else {
      SentKeeps(h, hb, s, Clip(rc, |e.phase.rest|));
    }
  }

  /** The first n bytes of what a write still has to send go out. */
  lemma {:induction false} SentKeeps(h: seq<bytes>, hb: seq<bytes>, s: View, n: nat)
    requires Link(h, hb, s) && s.near.phase.Writing? && n <= |s.near.phase.rest|
    ensures var k, data, rest := s.near.socket, s.near.phase.rest[..n], s.near.phase.rest[n..];
            Link(h, hb, s.(near := s.near.(phase := if rest == [] then Idle else Writing(rest)),
                           out := s.out[k := SendOn(s.out[k], data)]))
  {
    hide FrameCat, FrameOf;
    var e, k := s.near, s.near.socket;
    var data, rest := e.phase.rest[..n], e.phase.rest[n..];
    assert ChanInv(h, s.out[k], s.inc[k]) && ChanInv(hb, s.inc[k], s.out[k]);
    hide Chans, StreamInv;
    assert e.phase.rest == data + rest;
    SendOnKeepsChan(h, s.out[k], s.inc[k], data, rest);
    OneChannelChanges(h, hb, s, e.(phase := if rest == [] then Idle else Writing(rest)), k, SendOn(s.out[k], data));
  }

  // ---------- steps that move packets ----------

  /** On a connection just recovered on, nothing has been sent by us or read from the peer. */
  lemma {:induction false} RevivedStreams(
    h: seq<bytes>, hb: seq<bytes>, e: Endpoint, k: nat, own: Channel, inc: Channel, ps: seq<bytes>)
    requires ChanInv(h, own, inc) && ChanInv(hb, inc, own) && RecoverInv(e, k, own, inc)
    requires e.phase.SentCatchup? && inc.catchup.Some?
    requires |h| == |e.accepted| && 0 <= e.reader.sequenceNumber
    requires ps == hb[e.reader.sequenceNumber..inc.base]
    ensures own.sent + [] == FrameCat(h[own.base..])
    ensures StreamInv(hb, inc.base, ReviveReader(e.reader, k, ps), inc.sent, inc.Got())
    ensures |inc.flight| <= |inc.sent| && own.base <= |h|
  {
    assert h[own.base..] == [] && hb[inc.base..inc.base] == [];
    assert FrameCat([]) == [];
    hide FrameCat, FrameOf, Encode;
    var none: bytes := [];
    assert inc.sent[..0] == none + none;
  }

  lemma {:induction false} RevivedLink(h: seq<bytes>, hb: seq<bytes>, s: View, ps: seq<bytes>)
    requires Link(h, hb, s) && s.near.phase.SentCatchup? && s.inc[s.near.phase.conn].catchup.Some?
    requires |h| == |s.near.accepted| && 0 <= s.near.reader.sequenceNumber
    requires ps == hb[s.near.reader.sequenceNumber..s.inc[s.near.phase.conn].base]
    ensures Link(h, hb, s.(near := ReviveEnd(s.near, s.near.phase.conn, ps)))
  {
    var k := s.near.phase.conn;
    var own, inc, e' := s.out[k], s.inc[k], ReviveEnd(s.near, k, ps);
    assert ChanInv(h, own, inc) && ChanInv(hb, inc, own) && RecoverInv(s.near, k, own, inc);
    RevivedStreams(h, hb, s.near, k, own, inc, ps);
    assert own.catchup.Some?;
    hide FrameCat, FrameOf, ChanInv, StreamInv, Chans, RecoverInv, ReviveReader;
    assert e'.reader.socket == k by {
      RevivedSocket(s.near.reader, k, ps);
    }
    assert LiveReader(hb, e'.reader, s.inc);
    assert LiveWriter(h, k, [], s.out);
    assert EndInv(e', s.out, s.inc);
  }

  lemma {:induction false} RevivedSocket(r: ReaderState, k: nat, ps: seq<bytes>)
    ensures ReviveReader(r, k, ps).socket == k
  {
  }

  lemma {:induction false} RevivedBooks(
    c: Cipher, n: byte, far: Endpoint, e: Endpoint, k: nat, ps: seq<bytes>, base: nat)
    requires Books(c, n, far, e)
    requires e.reader.sequenceNumber <= base <= |far.accepted|
    requires ps == History(c, n, far.accepted)[e.reader.sequenceNumber..base]
    ensures Books(c, n, far, ReviveEnd(e, k, ps))
  {
    assert e.reader.queue + ps == History(c, n, far.accepted)[|e.delivered|..base];
  }

  lemma {:induction false} RecvCatchupKeeps(c: Cipher, m: byte, n: byte, s: View)
    requires ViewInv(c, m, n, s) && DoRecvCatchup(s).Some?
    ensures ViewInv(c, m, n, DoRecvCatchup(s).value)
    ensures DoRecvCatchup(s).value.near.socket == s.near.phase.conn
    ensures DoRecvCatchup(s).value.near.reader.sequenceNumber == s.inc[s.near.phase.conn].base
  {
    hide FrameCat, FrameOf, History, PlainAll, LongestFitting;
    var h, hb, e := History(c, m, s.near.accepted), History(c, n, s.far.accepted), s.near;
    var k := e.phase.conn;
    assert ChanInv(hb, s.inc[k], s.out[k]);
    var ps := hb[e.reader.sequenceNumber..s.inc[k].base];
    CatchupRoundTrip(ps);
    RevivedLink(h, hb, s, ps);
    RevivedBooks(c, n, s.far, e, k, ps, s.inc[k].base);
    hide Link, Chans;
    assert Books(c, m, ReviveEnd(e, k, ps), s.far);
  }

  lemma {:induction false} StartWriteLink(h: seq<bytes>, hb: seq<bytes>, s: View, x: bytes, e': Endpoint)
    requires Link(h, hb, s) && s.near.phase.Idle? && s.near.socket != INVALID_SOCKET
    requires e'.socket == s.near.socket && e'.writer.socket == s.near.writer.socket
    requires e'.reader == s.near.reader && e'.phase == Writing(FrameOf(x))
    ensures Link(h + [x], hb, s.(near := e'))
  {
    hide FrameCat, FrameOf, Chans, ChanInv, LiveReader, StreamInv, RecoverInv;
    ChansGrow(h, h + [x], s.out, s.inc);
    LiveReaderGrows(h, h + [x], s.far.reader, s.out);
    StartWriteStream(h, x, s.out[s.near.socket]);
    assert EndInv(e', s.out, s.inc);
  }

  /** The new frame is all that is left to send. */
  lemma {:induction false} StartWriteStream(h: seq<bytes>, x: bytes, ch: Channel)
    requires ch.base <= |h| && ch.sent + [] == FrameCat(h[ch.base..])
    ensures ch.sent + FrameOf(x) == FrameCat((h + [x])[ch.base..]) && FrameOf(x) != []
  {
    assert (h + [x])[ch.base..] == h[ch.base..] + [x];
    FrameCatSnoc(h[ch.base..], x);
  }

  lemma {:induction false} BooksGrow(c: Cipher, m: byte, e: Endpoint, r: Endpoint, p: Packet)
    requires Books(c, m, e, r)
    ensures Books(c, m, AcceptEnd(c, e, p), r)
  {
    var accepted' := e.accepted + [p];
    AcceptKeepsWriterInv(c, m, e.writer, e.accepted, p);
    HistoryAppend(c, m, e.accepted, p);
    assert accepted'[..|e.accepted|] == e.accepted;
    var h, h' := History(c, m, e.accepted), History(c, m, accepted');
    ReaderInvGrows(m, r.reader, h, h', PlainAll(e.accepted), PlainAll(accepted'), r.delivered);
    if r.threw {
      var i :| 0 <= i < |h| && |h[i]| > MAX_FRAME;
      assert |h'[i]| > MAX_FRAME;
    }
  }

  lemma {:induction false} StartWriteKeeps(c: Cipher, m: byte, n: byte, s: View, p: Packet)
    requires ViewInv(c, m, n, s) && DoStartWrite(c, s, p).Some?
    ensures ViewInv(c, m, n, DoStartWrite(c, s, p).value)
  {
    hide FrameCat, FrameOf;
    var e := s.near;
    if e.socket != INVALID_SOCKET {
      var e' := AcceptEnd(c, e, p);
      BooksGrow(c, m, e, s.far, p);
      AcceptKeepsWriterInv(c, m, e.writer, e.accepted, p);
      HistoryAppend(c, m, e.accepted, p);
      var h, hb := History(c, m, e.accepted), History(c, n, s.far.accepted);
      var x := Serialize(Sealed(c, m, |e.accepted|, p));
      StartWriteLink(h, hb, s, x, e');
      assert Books(c, n, s.far, e');
    }
  }

  lemma {:induction false} EndInvReadOwn(
    e: Endpoint, out: seq<Channel>, inc: seq<Channel>, k: nat, flight: bytes)
    requires EndInv(e, out, inc) && k < |out|
    ensures EndInv(e, out[k := out[k].(flight := flight)], inc)
  {
  }

  lemma {:induction false} ReadLink(h: seq<bytes>, hb: seq<bytes>, s: View, e': Endpoint, flight: bytes)
    requires Link(h, hb, s) && !s.near.phase.Recovering() && 0 <= s.near.socket < |s.inc|
    requires e'.socket == s.near.socket && e'.writer == s.near.writer && e'.phase == s.near.phase
    requires e'.reader.socket == s.near.socket
    requires var ch := s.inc[s.near.socket];
             && |flight| <= |ch.sent| && flight == ch.sent[|ch.sent| - |flight|..]
             && StreamInv(hb, ch.base, e'.reader, ch.sent, |ch.sent| - |flight|)
    ensures var k := s.near.socket;
            Link(h, hb, s.(near := e', inc := s.inc[k := s.inc[k].(flight := flight)]))
  {
    hide FrameCat, FrameOf;
    var k := s.near.socket;
    var ch' := s.inc[k].(flight := flight);
    assert ChanInv(h, s.out[k], s.inc[k]) && ChanInv(hb, s.inc[k], s.out[k]);
    ChansSetBack(h, s.out, s.inc, k, ch');
    ChansSet(hb, s.inc, s.out, k, ch');
    EndInvReadOwn(s.far, s.inc, s.out, k, flight);
    hide StreamInv, RecoverInv, ChanInv;
    assert EndInv(e', s.out, s.inc[k := ch']);
    assert LiveWriter(hb, s.far.socket, s.far.phase.Rest(), s.inc[k := ch']);
  }

  lemma {:induction false} ReadKeeps(c: Cipher, m: byte, n: byte, s: View, rc1: int, rc2: int)
    requires Sound(c) && Framable(c, m, n, s)
    requires ViewInv(c, m, n, s) && DoRead(c, s, rc1, rc2).Some?
    ensures ViewInv(c, m, n, DoRead(c, s, rc1, rc2).value)
  {
    hide FrameCat, FrameOf;
    var e, k := s.near, s.near.socket;
    if !e.shuttingDown && k != INVALID_SOCKET {
      var h, hb := History(c, m, e.accepted), History(c, n, s.far.accepted);
      var ch, o := s.inc[k], ReaderRead(c, e.reader, Feed(s.inc[k].flight, [rc1, rc2]));
      assert ChanInv(hb, ch, s.out[k]);
      HistoryOpens(c, n, s.far.accepted);
      var got' := ReadKeepsInv(c, n, hb, PlainAll(s.far.accepted), e.delivered, ch.base, e.reader,
                               ch.sent, ch.Got(), [rc1, rc2]);
      var e' := ReadEnd(e, o);
      ReadLink(h, hb, s, e', o.feed.inbox);
      assert Books(c, n, s.far, e');
      assert Books(c, m, e', s.far);
    }
  }

  // ---------- every step ----------

  lemma {:induction false} Flip(c: Cipher, m: byte, n: byte, s: View)
    requires ViewInv(c, m, n, s)
    ensures ViewInv(c, n, m, s.From(Server))
  {
    hide FrameCat, FrameOf, ChanInv, StreamInv, RecoverInv;
  }

  /** The steps that move no packet. */
  predicate MovesNoPacket(st: Step) {
    !st.StartWrite? && !st.Read? && !st.RecvCatchup?
  }

  lemma {:induction false} SameBooksStep(c: Cipher, s: View, st: Step)
    requires Do(c, s, st).Some? && MovesNoPacket(st)
    ensures SameBooks(s.near, Do(c, s, st).value.near) && Do(c, s, st).value.far == s.far
  {
    hide RecoverFrom, Encode, Clip;
  }

  lemma {:induction false} LinkStepKeeps(
    c: Cipher, m: byte, h: seq<bytes>, hb: seq<bytes>, s: View, st: Step)
    requires Link(h, hb, s) && Do(c, s, st).Some? && MovesNoPacket(st)
    requires WriterInv(c, m, s.near.writer, s.near.accepted) && h == History(c, m, s.near.accepted)
    requires 0 <= s.near.reader.sequenceNumber <= |hb|
    ensures Link(h, hb, Do(c, s, st).value)
  {
    hide FrameCat, FrameOf, Chans, LiveWriter, LiveReader, EndInv, WriterInv, RecoverFrom, Encode, Clip;
    match st
    case Connect => ConnectKeeps(h, hb, s);
    case Send(_, rc) => SendKeeps(h, hb, s, rc);
    case Close(_) => CloseKeeps(h, hb, s, s.near);
    case Shutdown(_) => CloseKeeps(h, hb, s, s.near.(shuttingDown := true));
    case SendHello(_, k) => SendHelloKeeps(h, hb, s, k);
    case RecvHello(_) => RecvHelloKeeps(h, hb, s);
    case SendCatchup(_) => SendCatchupKeeps(c, m, h, hb, s);
    case RecoverFails(_) => RecoverFailsKeeps(h, hb, s);
  }

  lemma {:induction false} QuietStepKeeps(c: Cipher, m: byte, n: byte, s: View, st: Step)
    requires ViewInv(c, m, n, s) && Do(c, s, st).Some? && MovesNoPacket(st)
    ensures ViewInv(c, m, n, Do(c, s, st).value)
  {
    hide Link, Do, LongestFitting, Newest;
    LinkStepKeeps(c, m, History(c, m, s.near.accepted), History(c, n, s.far.accepted), s, st);
    SameBooksStep(c, s, st);
    hide Books;
    SameBooksKeep(c, m, n, s, Do(c, s, st).value);
  }

  /** Every step keeps the invariant, in the view of the side that takes it. */
  lemma {:induction false} DoKeeps(c: Cipher, m: byte, n: byte, s: View, st: Step)
    requires Sound(c) && ViewInv(c, m, n, s) && Framable(c, m, n, s)
    requires Do(c, s, st).Some?
    ensures ViewInv(c, m, n, Do(c, s, st).value)
  {
    hide ViewInv, DoStartWrite, DoRead, DoRecvCatchup;
    match st
    case StartWrite(_, p) => StartWriteKeeps(c, m, n, s, p);
    case Read(_, rc1, rc2) => ReadKeeps(c, m, n, s, rc1, rc2);
    case RecvCatchup(_) => RecvCatchupKeeps(c, m, n, s);
    case _ => QuietStepKeeps(c, m, n, s, st);
  }
}
