/**
 * The receiving half of a connection: it reassembles frames from whatever pieces the socket
 * returns, serves queued catch-up packets first, and counts what it has accepted.
 */
module BackedReaders {
  import opened Bytes
  import opened Packets
  import opened Nonces
  import opened SocketIo
  import opened BackedWriters

  datatype ReaderState = ReaderState(
    socket: SocketHandle,
    sequenceNumber: int,
    queue: seq<bytes>,
    partial: bytes,
    nonce: nat)

  /** The source's return values 1, 0 and -1, and an exception. */
  datatype ReadResult = Delivered(packet: Packet) | Nothing | Broken | Thrown

  datatype ReadOutcome = ReadOutcome(reader: ReaderState, result: ReadResult, feed: Feed)

  /** Parses one stored or reassembled packet and decrypts it under the next nonce. */
  function Unseal(c: Cipher, nonce: nat, s: bytes): (nat, Option<Packet>) {
    var p := Parse(s);
    if !p.encrypted then (nonce, Some(p))
    else
      match c.open(NextNonce(nonce), p.payload)
      case None => (NextNonce(nonce), None)
      case Some(plain) => (NextNonce(nonce), Some(Packet(false, p.header, plain)))
  }

  function ReaderRead(c: Cipher, r: ReaderState, f: Feed): ReadOutcome {
    if r.socket == INVALID_SOCKET then ReadOutcome(r, Nothing, f)
    else if r.queue != [] then
      var (nonce, packet) := Unseal(c, r.nonce, r.queue[0]);
      ReadOutcome(r.(queue := r.queue[1..], nonce := nonce),
                  if packet.None? then Thrown else Delivered(packet.value), f)
    else if |r.partial| < 4 then
      var (f', data) := OsRead(f, 4 - |r.partial|);
      if data == [] then ReadOutcome(r, Broken, f')
      else if |r.partial + data| < 4 then ReadOutcome(r.(partial := r.partial + data), Nothing, f')
      else ReadBody(c, r.(partial := r.partial + data), f')
    else ReadBody(c, r, f)
  }

  function ReadBody(c: Cipher, r: ReaderState, f: Feed): ReadOutcome
    requires |r.partial| >= 4
  {
    var length := FromBe32(r.partial);
    if length == 0 || length > MAX_FRAME then ReadOutcome(r, Thrown, f)
    else
      var remaining := length - (|r.partial| - 4);
      if remaining > 0 then
        var (f', data) := OsRead(f, remaining);
        if data == [] then ReadOutcome(r, Broken, f')
        else FinishBody(c, r.(partial := r.partial + data), length, f')
      else FinishBody(c, r, length, f)
  }

  function FinishBody(c: Cipher, r: ReaderState, length: nat, f: Feed): ReadOutcome
    requires |r.partial| >= 4
  {
    if |r.partial| - 4 != length then ReadOutcome(r, Nothing, f)
    else
      var (nonce, packet) := Unseal(c, r.nonce, r.partial[4..]);
      if packet.None? then ReadOutcome(r.(nonce := nonce), Thrown, f)
      else
        ReadOutcome(
          r.(nonce := nonce, partial := [], sequenceNumber := r.sequenceNumber + 1),
          Delivered(packet.value), f)
  }

  /** The end of Recover: queue the catch-up packets and count them. */
  function ReviveReader(r: ReaderState, socket: SocketHandle, buffered: seq<bytes>): ReaderState {
    r.(socket := socket,
       partial := [],
       queue := r.queue + buffered,
       sequenceNumber := r.sequenceNumber + |buffered|)
  }

  // ---------- what the reader knows of the peer's history ----------

  /** The packet as the receiving application sees it. */
  function Plain(p: Packet): Packet {
    p.(encrypted := false)
  }

  function PlainAll(ps: seq<Packet>): (r: seq<Packet>)
    ensures |r| == |ps|
  {
    if ps == [] then [] else PlainAll(ps[..|ps| - 1]) + [Plain(ps[|ps| - 1])]
  }

  lemma {:induction false} PlainAllAt(ps: seq<Packet>, n: nat)
    requires n < |ps|
    ensures PlainAll(ps)[n] == Plain(ps[n])
    decreases |ps|
  {
    if n < |ps| - 1 {
      PlainAllAt(ps[..|ps| - 1], n);
    }
  }

  /**
   * `h` are the peer's serialized packets and `plain` what they open to, each under the nonce
   * of its own place in the sequence.
   */
  ghost predicate Opens(c: Cipher, msb: byte, h: seq<bytes>, plain: seq<Packet>) {
    && |h| == |plain|
    && forall n :: 0 <= n < |h| ==>
         Unseal(c, NonceAt(msb, n), h[n]) == (NonceAt(msb, n + 1), Some(plain[n]))
  }

  /** Opening packet number n with the counter at n gives back what was written. */
  lemma {:induction false} HistoryOpens(c: Cipher, msb: byte, accepted: seq<Packet>)
    requires Sound(c)
    ensures Opens(c, msb, History(c, msb, accepted), PlainAll(accepted))
  {
    forall n | 0 <= n < |accepted|
      ensures Unseal(c, NonceAt(msb, n), History(c, msb, accepted)[n])
              == (NonceAt(msb, n + 1), Some(PlainAll(accepted)[n]))
    {
      HistoryAt(c, msb, accepted, n);
      PlainAllAt(accepted, n);
      ParseSerialize(Sealed(c, msb, n, accepted[n]));
    }
  }

  /** With an authentic cipher it opens exactly in step, up to whole cycles of the counter. */
  lemma {:induction false} UnsealOutOfStep(c: Cipher, msb: byte, n: nat, m: nat, p: Packet)
    requires Authentic(c)
    ensures Unseal(c, NonceAt(msb, m), Serialize(Sealed(c, msb, n, p))).1.Some?
            <==> (if m <= n then n - m else m - n) % NONCE_SPACE == 0
  {
    ParseSerialize(Sealed(c, msb, n, p));
    assert NonceAt(msb, m + 1) == NextNonce(NonceAt(msb, m));
    if m <= n {
      NonceReuseWithinDirection(msb, m + 1, n + 1);
    } else {
      NonceReuseWithinDirection(msb, n + 1, m + 1);
    }
  }

  /**
   * The packets handed out followed by the queued ones are the peer's first `sequenceNumber`
   * packets, and the nonce is the one the last packet handed out was sealed under.
   */
  ghost predicate ReaderInv(
    msb: byte, r: ReaderState, h: seq<bytes>, plain: seq<Packet>, delivered: seq<Packet>)
  {
    && |delivered| + |r.queue| == r.sequenceNumber <= |h| == |plain|
    && delivered == plain[..|delivered|]
    && r.queue == h[|delivered|..r.sequenceNumber]
    && r.nonce == NonceAt(msb, |delivered|)
  }

  /**
   * The first `got` bytes of a connection's stream are the frames from `base` to the reader's
   * count, then the partial frame, which is shorter than the frame it belongs to.
   */
  ghost predicate StreamInv(h: seq<bytes>, base: nat, r: ReaderState, sent: bytes, got: nat) {
    && base <= r.sequenceNumber <= |h|
    && got <= |sent|
    && sent <= FrameCat(h[base..])
    && sent[..got] == FrameCat(h[base..r.sequenceNumber]) + r.partial
    && (r.partial != [] ==>
          r.sequenceNumber < |h| && |r.partial| < |FrameOf(h[r.sequenceNumber])|)
  }

  ghost predicate AllFramed(h: seq<bytes>) {
    forall i :: 0 <= i < |h| ==> 2 <= |h[i]| < TWO_TO_THE_32
  }

  // ---------- frame reassembly ----------

  /** The partial frame is the start of the frame the reader is waiting for. */
  lemma {:induction false} PartialIsPrefix(h: seq<bytes>, base: nat, r: ReaderState, sent: bytes, got: nat)
    requires StreamInv(h, base, r, sent, got) && r.partial != []
    ensures r.sequenceNumber < |h| && r.partial <= FrameOf(h[r.sequenceNumber])
  {
    var m := r.sequenceNumber;
    StreamSplit(h, base, m);
    assert sent[..got] <= FrameCat(h[base..]);
    PrefixCancel(FrameCat(h[base..m]), r.partial, FrameCat(h[m..]));
    PrefixOfFirst(r.partial, FrameOf(h[m]), FrameCat(h[m + 1..]));
  }

  /** Bytes read next on the stream extend the partial frame towards the frame it belongs to. */
  lemma {:induction false} PartialGrows(
    h: seq<bytes>, base: nat, r: ReaderState, sent: bytes, got: nat, data: bytes)
    requires StreamInv(h, base, r, sent, got)
    requires data != [] && got + |data| <= |sent| && data == sent[got..got + |data|]
    ensures r.sequenceNumber < |h|
    ensures |r.partial + data| <= |FrameOf(h[r.sequenceNumber])|
            ==> r.partial + data <= FrameOf(h[r.sequenceNumber])
    ensures sent[..got + |data|] == FrameCat(h[base..r.sequenceNumber]) + (r.partial + data)
  {
    var m := r.sequenceNumber;
    StreamSplit(h, base, m);
    TakeMore(sent, got, data, FrameCat(h[base..m]), r.partial, FrameCat(h[m..]));
    if m < |h| && |r.partial + data| <= |FrameOf(h[m])| {
      PrefixOfFirst(r.partial + data, FrameOf(h[m]), FrameCat(h[m + 1..]));
    }
  }

  /** The frame is still incomplete: the bytes join the partial frame. */
  lemma {:induction false} StreamAdvances(
    h: seq<bytes>, base: nat, r: ReaderState, sent: bytes, got: nat, data: bytes)
    requires StreamInv(h, base, r, sent, got)
    requires data != [] && got + |data| <= |sent| && data == sent[got..got + |data|]
    requires r.sequenceNumber < |h| ==> |r.partial + data| < |FrameOf(h[r.sequenceNumber])|
    ensures StreamInv(h, base, r.(partial := r.partial + data), sent, got + |data|)
  {
    PartialGrows(h, base, r, sent, got, data);
  }

  /** The frame is complete: it is the next packet of the history, and the reader moves on. */
  lemma {:induction false} StreamCompletes(
    h: seq<bytes>, base: nat, r: ReaderState, sent: bytes, got: nat, data: bytes)
    requires StreamInv(h, base, r, sent, got)
    requires data != [] && got + |data| <= |sent| && data == sent[got..got + |data|]
    requires r.sequenceNumber < |h| && |r.partial + data| == |FrameOf(h[r.sequenceNumber])|
    ensures r.partial + data == FrameOf(h[r.sequenceNumber])
    ensures StreamInv(h, base, r.(partial := [], sequenceNumber := r.sequenceNumber + 1), sent, got + |data|)
  {
    hide FrameCat, FrameOf;
    var m := r.sequenceNumber;
    PartialGrows(h, base, r, sent, got, data);
    StreamSplit(h, base, m);
    WholePrefix(r.partial + data, FrameOf(h[m]));
    hide StreamInv;
    NextFrame(h, base, r, sent, got, got + |data|);
  }

  lemma WholePrefix(a: bytes, b: bytes)
    requires a <= b && |a| == |b|
    ensures a == b
  {
  }

  /** The stream position after the frame the reader was waiting for. */
  lemma {:induction false} NextFrame(h: seq<bytes>, base: nat, r: ReaderState, sent: bytes, got: nat, got': nat)
    requires StreamInv(h, base, r, sent, got) && r.sequenceNumber < |h| && got' <= |sent|
    requires FrameCat(h[base..r.sequenceNumber + 1])
          == FrameCat(h[base..r.sequenceNumber]) + FrameOf(h[r.sequenceNumber])
    requires sent[..got'] == FrameCat(h[base..r.sequenceNumber]) + FrameOf(h[r.sequenceNumber])
    ensures StreamInv(h, base, r.(partial := [], sequenceNumber := r.sequenceNumber + 1), sent, got')
  {
    hide FrameCat, FrameOf;
    var done := FrameCat(h[base..r.sequenceNumber + 1]);
    assert done + [] == done;
  }

  // ---------- one call of Read ----------

  /** What a read of the socket keeps, with `got'` bytes of the stream consumed after it. */
  ghost predicate ReadKept(
    msb: byte, h: seq<bytes>, plain: seq<Packet>, delivered: seq<Packet>,
    base: nat, r: ReaderState, sent: bytes, o: ReadOutcome, got': nat)
  {
    && got' <= |sent| && o.feed.inbox == sent[got'..]
    && o.reader.socket == r.socket
    && ReaderInv(msb, o.reader, h, plain, if o.result.Delivered? then delivered + [o.result.packet] else delivered)
    && StreamInv(h, base, o.reader, sent, got')
    && (o.result.Delivered? ==> |delivered| < |plain| && o.result.packet == plain[|delivered|])
    && (o.result == Thrown ==> 0 <= r.sequenceNumber < |h| && |h[r.sequenceNumber]| > MAX_FRAME)
  }

  /** A queued packet is opened first and the socket is left alone. */
  lemma {:induction false} ReadQueuedKeeps(
    c: Cipher, msb: byte, r: ReaderState, h: seq<bytes>, plain: seq<Packet>, delivered: seq<Packet>, f: Feed)
    requires Opens(c, msb, h, plain) && ReaderInv(msb, r, h, plain, delivered)
    requires r.socket != INVALID_SOCKET && r.queue != []
    ensures var o := ReaderRead(c, r, f);
            && |delivered| < |plain|
            && o.result == Delivered(plain[|delivered|])
            && o.feed == f
            && o.reader == r.(queue := r.queue[1..], nonce := NonceAt(msb, |delivered| + 1))
            && ReaderInv(msb, o.reader, h, plain, delivered + [o.result.packet])
  {
    var n := |delivered|;
    assert r.queue[0] == h[n];
    assert Unseal(c, r.nonce, h[n]) == (NonceAt(msb, n + 1), Some(plain[n]));
    assert delivered + [plain[n]] == plain[..n + 1];
  }

  lemma {:induction false} LengthIsKnown(h: seq<bytes>, base: nat, r: ReaderState, sent: bytes, got: nat)
    requires AllFramed(h) && StreamInv(h, base, r, sent, got) && 4 <= |r.partial|
    ensures r.sequenceNumber < |h| && FromBe32(r.partial) == |h[r.sequenceNumber]|
    ensures |FrameOf(h[r.sequenceNumber])| == 4 + |h[r.sequenceNumber]|
  {
    PartialIsPrefix(h, base, r, sent, got);
    var frame := FrameOf(h[r.sequenceNumber]);
    FrameLengthField(h[r.sequenceNumber]);
    assert r.partial[..4] == frame[..4];
  }

  lemma {:induction false} ReadBodyKeeps(
    c: Cipher, msb: byte, h: seq<bytes>, plain: seq<Packet>, delivered: seq<Packet>,
    base: nat, r: ReaderState, sent: bytes, got: nat, f: Feed)
    returns (got': nat)
    requires Opens(c, msb, h, plain) && AllFramed(h)
    requires ReaderInv(msb, r, h, plain, delivered) && r.queue == []
    requires StreamInv(h, base, r, sent, got) && 4 <= |r.partial| && f.inbox == sent[got..]
    ensures ReadKept(msb, h, plain, delivered, base, r, sent, ReadBody(c, r, f), got')
  {
    hide Opens, Unseal, FromBe32, FinishBody, FrameCat, FrameOf;
    got' := got;
    LengthIsKnown(h, base, r, sent, got);
    var length := |h[|delivered|]|;
    if length > MAX_FRAME {
      assert ReadBody(c, r, f) == ReadOutcome(r, Thrown, f);
    } else {
      var (f', data) := OsRead(f, length - (|r.partial| - 4));
      got' := got + |data|;
      assert f'.inbox == sent[got'..] && data == sent[got..got'];
      if data == [] {
        assert ReadBody(c, r, f) == ReadOutcome(r, Broken, f');
      } else {
        assert ReadBody(c, r, f) == FinishBody(c, r.(partial := r.partial + data), length, f');
        BodyBytesKeep(c, msb, h, plain, delivered, base, r, sent, got, data, f');
      }
    }
  }

  lemma {:induction false} BodyBytesKeep(
    c: Cipher, msb: byte, h: seq<bytes>, plain: seq<Packet>, delivered: seq<Packet>,
    base: nat, r: ReaderState, sent: bytes, got: nat, data: bytes, f': Feed)
    requires Opens(c, msb, h, plain)
    requires ReaderInv(msb, r, h, plain, delivered) && r.queue == []
    requires StreamInv(h, base, r, sent, got) && r.sequenceNumber < |h|
    requires data != [] && got + |data| <= |sent| && data == sent[got..got + |data|]
    requires 4 <= |r.partial + data| <= |FrameOf(h[r.sequenceNumber])| == 4 + |h[r.sequenceNumber]|
    requires f'.inbox == sent[got + |data|..]
    ensures ReadKept(msb, h, plain, delivered, base, r, sent,
                     FinishBody(c, r.(partial := r.partial + data), |h[r.sequenceNumber]|, f'), got + |data|)
  {
    hide Opens, Unseal, FrameCat, FrameOf, StreamInv;
    var r' := r.(partial := r.partial + data);
    if |r'.partial| < 4 + |h[r.sequenceNumber]| {
      StreamAdvances(h, base, r, sent, got, data);
      assert FinishBody(c, r', |h[r.sequenceNumber]|, f') == ReadOutcome(r', Nothing, f');
    } else {
      StreamCompletes(h, base, r, sent, got, data);
      FinishDelivers(c, msb, h, plain, delivered, r', f');
      var next := FinishBody(c, r', |h[r.sequenceNumber]|, f').reader;
      SameStream(h, base, r.(partial := [], sequenceNumber := r.sequenceNumber + 1), next, sent, got + |data|);
    }
  }

  /** Only the count and the partial frame say where a reader stands in a stream. */
  lemma {:induction false} SameStream(
    h: seq<bytes>, base: nat, r: ReaderState, r': ReaderState, sent: bytes, got: nat)
    requires StreamInv(h, base, r, sent, got)
    requires r'.sequenceNumber == r.sequenceNumber && r'.partial == r.partial
    ensures StreamInv(h, base, r', sent, got)
  {
  }

  /** With the header in hand, Read throws exactly for a frame longer than the limit. */
  lemma {:induction false} ThrowsExactlyForOversize(
    c: Cipher, msb: byte, h: seq<bytes>, plain: seq<Packet>, delivered: seq<Packet>,
    base: nat, r: ReaderState, sent: bytes, got: nat, script: seq<int>)
    requires Opens(c, msb, h, plain) && AllFramed(h)
    requires ReaderInv(msb, r, h, plain, delivered) && r.queue == [] && r.socket != INVALID_SOCKET
    requires StreamInv(h, base, r, sent, got) && 4 <= |r.partial|
    ensures r.sequenceNumber < |h|
    ensures ReaderRead(c, r, Feed(sent[got..], script)).result == Thrown
            <==> |h[r.sequenceNumber]| > MAX_FRAME
  {
    LengthIsKnown(h, base, r, sent, got);
    var _ := ReadBodyKeeps(c, msb, h, plain, delivered, base, r, sent, got, Feed(sent[got..], script));
  }

  /** A whole frame opens to the next packet of the peer. */
  lemma {:induction false} FinishDelivers(
    c: Cipher, msb: byte, h: seq<bytes>, plain: seq<Packet>, delivered: seq<Packet>, r: ReaderState, f: Feed)
    requires Opens(c, msb, h, plain) && ReaderInv(msb, r, h, plain, delivered) && r.queue == []
    requires r.sequenceNumber < |h| && r.partial == FrameOf(h[r.sequenceNumber])
    ensures var n := |delivered|;
            var o := FinishBody(c, r, |h[n]|, f);
            && o.result == Delivered(plain[n]) && o.feed == f
            && o.reader == r.(nonce := NonceAt(msb, n + 1), partial := [], sequenceNumber := n + 1)
            && ReaderInv(msb, o.reader, h, plain, delivered + [plain[n]])
  {
    var n := |delivered|;
    FrameLengthField(h[n]);
    assert r.partial[4..] == h[n];
    assert Unseal(c, r.nonce, h[n]) == (NonceAt(msb, n + 1), Some(plain[n]));
    assert delivered + [plain[n]] == plain[..n + 1];
  }

  /** One read takes the next bytes of the stream. */
  lemma {:induction false} NextBytes(sent: bytes, got: nat, f: Feed, count: nat)
    requires got <= |sent| && f.inbox == sent[got..]
    ensures var (f', data) := OsRead(f, count);
            && |data| <= count && got + |data| <= |sent|
            && data == sent[got..got + |data|] && f'.inbox == sent[got + |data|..]
  {
  }

  lemma {:induction false} ReadHeaderKeeps(
    c: Cipher, msb: byte, h: seq<bytes>, plain: seq<Packet>, delivered: seq<Packet>,
    base: nat, r: ReaderState, sent: bytes, got: nat, f: Feed)
    returns (got': nat)
    requires Opens(c, msb, h, plain) && AllFramed(h)
    requires ReaderInv(msb, r, h, plain, delivered) && r.queue == [] && r.socket != INVALID_SOCKET
    requires StreamInv(h, base, r, sent, got) && |r.partial| < 4 && f.inbox == sent[got..]
    ensures ReadKept(msb, h, plain, delivered, base, r, sent, ReaderRead(c, r, f), got')
  {
    hide ReaderRead, ReadBody, OsRead, Opens, AllFramed, StreamInv, ReadKept, ReaderInv;
    GotInRange(h, base, r, sent, got);
    var (f', data) := OsRead(f, 4 - |r.partial|);
    got' := got + |data|;
    NextBytes(sent, got, f, 4 - |r.partial|);
    HeaderStage(c, r, f);
    var r' := r.(partial := r.partial + data);
    if data == [] {
      Kept(msb, h, plain, delivered, base, r, r, sent, ReadOutcome(r, Broken, f'), got);
    } else {
      HeaderGrows(h, base, r, sent, got, data);
      Kept(msb, h, plain, delivered, base, r, r', sent, ReadOutcome(r', Nothing, f'), got');
      if |r'.partial| == 4 {
        got' := ReadBodyKeeps(c, msb, h, plain, delivered, base, r', sent, got', f');
        KeptFrom(msb, h, plain, delivered, base, r, r', sent, ReadBody(c, r', f'), got');
      }
    }
  }

  lemma GotInRange(h: seq<bytes>, base: nat, r: ReaderState, sent: bytes, got: nat)
    requires StreamInv(h, base, r, sent, got)
    ensures got <= |sent|
  {
  }

  /** A call that delivers nothing keeps everything but the partial frame. */
  lemma {:induction false} Kept(
    msb: byte, h: seq<bytes>, plain: seq<Packet>, delivered: seq<Packet>,
    base: nat, r: ReaderState, r': ReaderState, sent: bytes, o: ReadOutcome, got': nat)
    requires ReaderInv(msb, r, h, plain, delivered) && r' == r.(partial := r'.partial)
    requires StreamInv(h, base, r', sent, got') && got' <= |sent| && o.feed.inbox == sent[got'..]
    requires o.reader == r' && (o.result == Broken || o.result == Nothing)
    ensures ReadKept(msb, h, plain, delivered, base, r, sent, o, got')
    ensures ReaderInv(msb, r', h, plain, delivered)
  {
    hide StreamInv;
  }

  /** Bytes that joined the partial frame before do not matter for what a read keeps. */
  lemma {:induction false} KeptFrom(
    msb: byte, h: seq<bytes>, plain: seq<Packet>, delivered: seq<Packet>,
    base: nat, r: ReaderState, r': ReaderState, sent: bytes, o: ReadOutcome, got': nat)
    requires r' == r.(partial := r'.partial)
    requires ReadKept(msb, h, plain, delivered, base, r', sent, o, got')
    ensures ReadKept(msb, h, plain, delivered, base, r, sent, o, got')
  {
    hide StreamInv, ReaderInv;
  }

  /** What Read does while the header is incomplete. */
  lemma {:induction false} HeaderStage(c: Cipher, r: ReaderState, f: Feed)
    requires r.socket != INVALID_SOCKET && r.queue == [] && |r.partial| < 4
    ensures var (f', data) := OsRead(f, 4 - |r.partial|);
            var r' := r.(partial := r.partial + data);
            ReaderRead(c, r, f)
            == if data == [] then ReadOutcome(r, Broken, f')
               else if |r'.partial| < 4 then ReadOutcome(r', Nothing, f')
               else ReadBody(c, r', f')
  {
    hide OsRead, ReadBody;
  }

  lemma {:induction false} HeaderGrows(
    h: seq<bytes>, base: nat, r: ReaderState, sent: bytes, got: nat, data: bytes)
    requires StreamInv(h, base, r, sent, got) && |r.partial + data| <= 4
    requires data != [] && got + |data| <= |sent| && data == sent[got..got + |data|]
    requires AllFramed(h)
    ensures StreamInv(h, base, r.(partial := r.partial + data), sent, got + |data|)
  {
    if r.sequenceNumber < |h| {
      FrameLengthField(h[r.sequenceNumber]);
    }
    hide StreamInv, FrameOf;
    StreamAdvances(h, base, r, sent, got, data);
  }

  /**
   * One call of Read, for any pieces the socket returns: the packets handed out, the queue, the
   * nonce and the partial frame stay in step with the peer's history, and the only exception is
   * for a packet longer than the reader's frame limit.
   */
  lemma {:induction false} ReadKeepsInv(
    c: Cipher, msb: byte, h: seq<bytes>, plain: seq<Packet>, delivered: seq<Packet>,
    base: nat, r: ReaderState, sent: bytes, got: nat, script: seq<int>)
    returns (got': nat)
    requires Opens(c, msb, h, plain) && AllFramed(h)
    requires ReaderInv(msb, r, h, plain, delivered) && StreamInv(h, base, r, sent, got)
    ensures ReadKept(msb, h, plain, delivered, base, r, sent, ReaderRead(c, r, Feed(sent[got..], script)), got')
  {
    got' := got;
    var f := Feed(sent[got..], script);
    if r.socket == INVALID_SOCKET {
    } else if r.queue != [] {
      ReadQueuedKeeps(c, msb, r, h, plain, delivered, f);
    } else if |r.partial| < 4 {
      got' := ReadHeaderKeeps(c, msb, h, plain, delivered, base, r, sent, got, f);
    } else {
      got' := ReadBodyKeeps(c, msb, h, plain, delivered, base, r, sent, got, f);
    }
  }

  /** How a stream was cut up does not matter: the bytes consumed determine count and partial frame. */
  lemma {:induction false} FragmentationDoesNotMatter(
    h: seq<bytes>, base: nat, r1: ReaderState, r2: ReaderState, sent: bytes, got: nat)
    requires AllFramed(h)
    requires StreamInv(h, base, r1, sent, got) && StreamInv(h, base, r2, sent, got)
    ensures r1.sequenceNumber == r2.sequenceNumber && r1.partial == r2.partial
  {
    var i, j := r1.sequenceNumber, r2.sequenceNumber;
    if i < j {
      StreamGrows(h, base, i, j);
      assert false;
    } else if j < i {
      StreamGrows(h, base, j, i);
      assert false;
    } else {
      var done := FrameCat(h[base..i]);
      assert (done + r1.partial)[|done|..] == (done + r2.partial)[|done|..];
    }
  }

  /**
   * The writer sets no limit of its own: from 2^32 bytes on, the length field has wrapped, and
   * the reader takes the packet for its first bytes alone, or throws.
   */
  lemma {:induction false} LongFrameIsMisread(c: Cipher, r: ReaderState, s: bytes, rest: bytes)
    requires |s| >= TWO_TO_THE_32 && r.socket != INVALID_SOCKET && r.queue == [] && r.partial == []
    ensures var n := |s| % TWO_TO_THE_32;
            var o := ReaderRead(c, r, Feed(FrameOf(s) + rest, [4, n]));
            if n == 0 || n > MAX_FRAME then o.result == Thrown && o.reader.sequenceNumber == r.sequenceNumber
            else
              var (nonce, packet) := Unseal(c, r.nonce, s[..n]);
              && o.result == (if packet.None? then Thrown else Delivered(packet.value))
              && o.reader.nonce == nonce
              && o.feed.inbox == s[n..] + rest
  {
    hide FrameOf, Unseal, FromBe32, OsRead, ReaderRead, ReadBody;
    var n := |s| % TWO_TO_THE_32;
    var head := LongHeader(s, rest, n);
    HeaderStage(c, r, Feed(FrameOf(s) + rest, [4, n]));
    LongBodyRead(c, r.(partial := head), s, rest, n);
  }

  lemma {:induction false} LongBodyRead(c: Cipher, r: ReaderState, s: bytes, rest: bytes, n: nat)
    requires |r.partial| == 4 && FromBe32(r.partial) == n <= |s|
    ensures var o := ReadBody(c, r, Feed(s + rest, [n]));
            if n == 0 || n > MAX_FRAME then o.result == Thrown && o.reader.sequenceNumber == r.sequenceNumber
            else
              var (nonce, packet) := Unseal(c, r.nonce, s[..n]);
              && o.result == (if packet.None? then Thrown else Delivered(packet.value))
              && o.reader.nonce == nonce
              && o.feed.inbox == s[n..] + rest
  {
    if 0 < n <= MAX_FRAME {
      LongBody(s, rest, n, r.partial);
    }
    hide Unseal, FromBe32, OsRead;
  }

  lemma {:induction false} LongHeader(s: bytes, rest: bytes, n: nat) returns (head: bytes)
    requires n == |s| % TWO_TO_THE_32
    ensures |head| == 4 && FromBe32(head) == n && [] + head == head
    ensures OsRead(Feed(FrameOf(s) + rest, [4, n]), 4) == (Feed(s + rest, [n]), head)
  {
    hide Be32, FromBe32;
    FrameLengthField(s);
    var b := FrameOf(s) + rest;
    head := b[..4];
    assert head == FrameOf(s)[..4];
    HeaderDecides(FrameOf(s), head);
    assert b[4..] == s + rest;
  }

  lemma {:induction false} LongBody(s: bytes, rest: bytes, n: nat, head: bytes)
    requires 0 < n <= |s| && |head| == 4
    ensures OsRead(Feed(s + rest, [n]), n) == (Feed(s[n..] + rest, []), s[..n])
    ensures (head + s[..n])[4..] == s[..n]
  {
    assert (s + rest)[n..] == s[n..] + rest && (s + rest)[..n] == s[..n];
    assert Min(n, |s + rest|) == n && [n][1..] == [];
  }

  lemma HeaderDecides(b: bytes, head: bytes)
    requires |b| >= 4 && head == b[..4]
    ensures FromBe32(b) == FromBe32(head)
  {
  }

  class BackedReader {
    const io: SocketHandler
    const crypto: CryptoHandler
    var socket: SocketHandle
    var sequenceNumber: int
    var localBuffer: seq<bytes>
    var partialMessage: bytes

    ghost predicate Valid()
      reads this, crypto, crypto.nonce
    {
      crypto.Valid()
    }

    ghost function State(): ReaderState
      reads this, crypto, crypto.nonce
      requires Valid()
    {
      ReaderState(socket, sequenceNumber, localBuffer, partialMessage, crypto.Nonce())
    }

    constructor (io: SocketHandler, cipher: Cipher, msb: byte, socket: SocketHandle)
      ensures Valid() && fresh(crypto) && fresh(crypto.nonce)
      ensures this.io == io && crypto.cipher == cipher
      ensures State() == ReaderState(socket, 0, [], [], NonceAt(msb, 0))
    {
      this.io := io;
      this.socket := socket;
      crypto := new CryptoHandler(cipher, msb);
      sequenceNumber, localBuffer, partialMessage := 0, [], [];
    }

    /** Decrypts in place of `set_payload(Decrypt(...))`. None is the exception. */
    method OpenPacket(s: bytes) returns (packet: Option<Packet>)
      requires Valid()
      modifies crypto.nonce
      ensures Valid() && (crypto.Nonce(), packet) == Unseal(crypto.cipher, old(crypto.Nonce()), s)
    {
      var p := Parse(s);
      if !p.encrypted {
        return Some(p);
      }
      var plain := crypto.Decrypt(p.payload);
      packet := if plain.None? then None else Some(Packet(false, p.header, plain.value));
    }

    method Read() returns (result: ReadResult)
      requires Valid()
      modifies this`localBuffer, this`partialMessage, this`sequenceNumber, crypto.nonce, io`inbox, io`script
      ensures Valid()
      ensures ReadOutcome(State(), result, io.FeedOf(socket))
              == ReaderRead(crypto.cipher, old(State()), old(io.FeedOf(socket)))
      ensures io.OnlyInboxChanged(socket, old(io.inbox))
    {
      hide FromBe32, Parse, Value, NextNonce, Unseal, ReadBody, OsRead;
      if socket == INVALID_SOCKET {
        return Nothing;
      }
      if localBuffer != [] {
        result := ReadQueued();
        return;
      }
      result := ReadFrame();
    }

    /** The second part of Read: the socket is asked for what the frame still lacks. */
    method ReadFrame() returns (result: ReadResult)
      requires Valid() && socket != INVALID_SOCKET && localBuffer == []
      modifies this`partialMessage, this`sequenceNumber, crypto.nonce, io`inbox, io`script
      ensures Valid()
      ensures ReadOutcome(State(), result, io.FeedOf(socket))
              == ReaderRead(crypto.cipher, old(State()), old(io.FeedOf(socket)))
      ensures io.OnlyInboxChanged(socket, old(io.inbox))
    {
      hide FromBe32, Parse, Value, NextNonce, Unseal, ReadBody, OsRead;
      if |partialMessage| < 4 {
        var data := io.Read(socket, 4 - |partialMessage|);
        if data == [] {
          return Broken;
        }
        partialMessage := partialMessage + data;
      }
      if |partialMessage| < 4 {
        return Nothing;
      }
      result := ReadRest();
    }

    /** The first part of Read: a catch-up packet is waiting. */
    method ReadQueued() returns (result: ReadResult)
      requires Valid() && socket != INVALID_SOCKET && localBuffer != []
      modifies this`localBuffer, crypto.nonce
      ensures Valid()
      ensures ReadOutcome(State(), result, io.FeedOf(socket))
              == ReaderRead(crypto.cipher, old(State()), io.FeedOf(socket))
    {
      hide FromBe32, Parse, Value, NextNonce, Unseal, ReadBody;
      var front := localBuffer[0];
      localBuffer := localBuffer[1..];
      var packet := OpenPacket(front);
      result := if packet.None? then Thrown else Delivered(packet.value);
    }

    /** The last part of Read: the header is complete. */
    method ReadRest() returns (result: ReadResult)
      requires Valid() && |partialMessage| >= 4
      modifies this`partialMessage, this`sequenceNumber, crypto.nonce, io`inbox, io`script
      ensures Valid()
      ensures ReadOutcome(State(), result, io.FeedOf(socket))
              == ReadBody(crypto.cipher, old(State()), old(io.FeedOf(socket)))
      ensures io.OnlyInboxChanged(socket, old(io.inbox))
    {
      hide FromBe32, Parse, Value, NextNonce, Unseal;
      var length := FromBe32(partialMessage);
      if length == 0 || length > MAX_FRAME {
        return Thrown;
      }
      var remaining := length - (|partialMessage| - 4);
      if remaining > 0 {
        var data := io.Read(socket, remaining);
        if data == [] {
          return Broken;
        }
        partialMessage := partialMessage + data;
      }
      if |partialMessage| - 4 != length {
        return Nothing;
      }
      var packet := OpenPacket(partialMessage[4..]);
      if packet.None? {
        return Thrown;
      }
      partialMessage := [];
      sequenceNumber := sequenceNumber + 1;
      result := Delivered(packet.value);
    }

    method Revive(socket: SocketHandle, buffered: seq<bytes>)
      requires Valid()
      modifies this`socket, this`localBuffer, this`partialMessage, this`sequenceNumber
      ensures Valid() && State() == ReviveReader(old(State()), socket, buffered)
    {
      partialMessage := [];
      localBuffer := localBuffer + buffered;
      sequenceNumber := sequenceNumber + |buffered|;
      this.socket := socket;
    }

    method InvalidateSocket()
      requires Valid()
      modifies this`socket
      ensures Valid() && State() == old(State()).(socket := INVALID_SOCKET)
    {
      socket := INVALID_SOCKET;
    }
  }
}
