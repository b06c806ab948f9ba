/**
 * Reading on a live connection: whatever its peer has sent comes out, one packet after the other,
 * queue and stream alike.
 */
module RecoveryDelivery {
  import opened Bytes
  import opened Packets
  import opened Nonces
  import opened SocketIo
  import opened BackedWriters
  import opened BackedReaders
  import opened FrameReading
  import opened Recovery
  import opened RecoveryInvariant
  import opened RecoverySafety
  import opened RecoveryMethods

  /** An answer no read can exceed. */
  const AMPLE: int := MAX_FRAME + 4

  /** What is in flight starts with what the frame being waited for lacks. */
  lemma {:induction false} FlightStartsWithFrame(h: seq<bytes>, base: nat, r: ReaderState, sent: bytes, got: nat)
    requires StreamInv(h, base, r, sent, got) && sent == FrameCat(h[base..])
    requires r.sequenceNumber < |h| && 0 < |h[r.sequenceNumber]| <= MAX_FRAME
    requires r.socket != INVALID_SOCKET && r.queue == []
    ensures Awaits(r, h[r.sequenceNumber])
    ensures sent[got..] == Lacking(r, h[r.sequenceNumber]) + FrameCat(h[r.sequenceNumber + 1..])
  {
    hide FrameCat, FrameOf;
    var m := r.sequenceNumber;
    var s, frame := h[m], FrameOf(h[m]);
    FrameLengthField(s);
    StreamSplit(h, base, m);
    if r.partial != [] {
      PartialIsPrefix(h, base, r, sent, got);
    }
    assert frame == r.partial + frame[|r.partial|..];
    Behind(sent, got, FrameCat(h[base..m]), r.partial, frame[|r.partial|..], FrameCat(h[m + 1..]));
  }

  lemma Behind(sent: bytes, got: nat, done: bytes, partial: bytes, lacking: bytes, more: bytes)
    requires got <= |sent| && sent == done + ((partial + lacking) + more) && sent[..got] == done + partial
    ensures sent[got..] == lacking + more
  {
    assert sent == (done + partial) + (lacking + more);
  }

  /** Both sides live on one connection, neither in the middle of anything, the reader's queue empty. */
  ghost predicate Settled(v: View) {
    && v.near.phase.Idle? && v.far.phase.Idle? && !v.near.shuttingDown
    && 0 <= v.near.socket == v.far.socket < |v.inc|
    && v.near.reader.queue == []
  }

  /** One read hands out the next packet. */
  lemma {:induction false} NextPacketArrives(c: Cipher, m: byte, n: byte, v: View)
    requires Sound(c) && ViewInv(c, m, n, v) && Settled(v)
    requires WithinLimit(History(c, n, v.far.accepted)) && AllFramed(History(c, n, v.far.accepted))
    requires v.near.reader.sequenceNumber < |v.far.accepted|
    ensures var o := ReaderRead(c, v.near.reader, Feed(v.inc[v.near.socket].flight, [AMPLE, AMPLE]));
            && o.result == Delivered(PlainAll(v.far.accepted)[v.near.reader.sequenceNumber])
            && o.reader.sequenceNumber == v.near.reader.sequenceNumber + 1
            && o.reader.queue == [] && o.reader.socket == v.near.reader.socket
  {
    var hb, r := History(c, n, v.far.accepted), v.near.reader;
    var k := v.near.socket;
    var ch := v.inc[k];
    StreamOfSettled(History(c, m, v.near.accepted), hb, v);
    assert 0 <= r.sequenceNumber && |hb[r.sequenceNumber]| <= MAX_FRAME;
    var s := hb[r.sequenceNumber];
    FlightStartsWithFrame(hb, ch.base, r, ch.sent, ch.Got());
    hide StreamInv, FrameCat, FrameOf;
    OneRead(c, r, s, FrameCat(hb[r.sequenceNumber + 1..]), [AMPLE, AMPLE]);
    HistoryOpens(c, n, v.far.accepted);
    ReaderStands(c, n, v);
    var plain := PlainAll(v.far.accepted)[r.sequenceNumber];
    assert Unseal(c, r.nonce, s) == (NonceAt(n, r.sequenceNumber + 1), Some(plain));
  }

  lemma {:induction false} ReaderStands(c: Cipher, n: byte, v: View)
    requires Books(c, n, v.far, v.near) && v.near.reader.queue == []
    ensures v.near.reader.nonce == NonceAt(n, v.near.reader.sequenceNumber)
    ensures 0 <= v.near.reader.sequenceNumber <= |v.far.accepted|
    ensures v.near.delivered == PlainAll(v.far.accepted)[..v.near.reader.sequenceNumber]
  {
    hide WriterInv, OnlyOversizeThrows;
  }

  lemma {:induction false} StreamOfSettled(h: seq<bytes>, hb: seq<bytes>, v: View)
    requires Link(h, hb, v) && Settled(v)
    ensures var ch := v.inc[v.near.socket];
            && v.near.reader.socket == v.near.socket
            && StreamInv(hb, ch.base, v.near.reader, ch.sent, ch.Got())
            && ch.sent == FrameCat(hb[ch.base..])
            && ch.flight == ch.sent[ch.Got()..]
  {
    hide StreamInv, FrameCat, RecoverInv;
    var ch := v.inc[v.near.socket];
    assert ChanInv(hb, ch, v.out[v.near.socket]);
    assert ch.sent + [] == ch.sent;
  }

  /** As many reads as there are packets still to come. */
  function AmpleReads(a: Side, n: nat): seq<Step> {
    seq(n, _ => Read(a, AMPLE, AMPLE))
  }

  /** The state after one such read. */
  function AfterRead(c: Cipher, v: View): View
    requires 0 <= v.near.reader.socket < |v.inc|
  {
    var k := v.near.reader.socket;
    var o := ReaderRead(c, v.near.reader, Feed(v.inc[k].flight, [AMPLE, AMPLE]));
    v.(near := ReadEnd(v.near, o), inc := v.inc[k := v.inc[k].(flight := o.feed.inbox)])
  }

  lemma {:induction false} StaysSettled(c: Cipher, m: byte, n: byte, v: View)
    requires Sound(c) && ViewInv(c, m, n, v) && Settled(v)
    requires WithinLimit(History(c, n, v.far.accepted)) && AllFramed(History(c, n, v.far.accepted))
    requires v.near.reader.sequenceNumber < |v.far.accepted|
    ensures 0 <= v.near.reader.socket < |v.inc|
    ensures var v' := AfterRead(c, v);
            && Settled(v') && v'.far == v.far && v'.near.accepted == v.near.accepted
            && v'.near.reader.sequenceNumber == v.near.reader.sequenceNumber + 1
  {
    NextPacketArrives(c, m, n, v);
    StreamOfSettled(History(c, m, v.near.accepted), History(c, n, v.far.accepted), v);
    hide ViewInv, ReaderRead, StreamInv, FrameCat;
  }

  /** One packet more, and everything is as it was otherwise. */
  lemma {:induction false} OneReadOn(c: Cipher, s: View, a: Side) returns (s': View)
    requires Sound(c) && Inv(c, s) && FramableRun(c, s) && Settled(s.From(a))
    requires WithinLimit(History(c, a.Peer().Msb(), s.From(a).far.accepted))
    requires s.From(a).near.reader.sequenceNumber < |s.From(a).far.accepted|
    ensures Next(c, s, Read(a, AMPLE, AMPLE)) == Some(s')
    ensures Inv(c, s') && FramableRun(c, s') && Settled(s'.From(a)) && s'.From(a).far == s.From(a).far
    ensures s'.From(a).near.reader.sequenceNumber == s.From(a).near.reader.sequenceNumber + 1
  {
    var v := s.From(a);
    SideInv(c, s, a);
    StaysSettled(c, a.Msb(), a.Peer().Msb(), v);
    hide Inv, ViewInv, Next, WithinLimit, AllFramed, ReaderRead;
    SettledReads(v);
    ReadTakes(c, v, a, AMPLE, AMPLE);
    s' := AfterRead(c, v).From(a);
    NextKeepsInv(c, s, Read(a, AMPLE, AMPLE));
  }

  lemma {:induction false} SettledReads(v: View)
    requires Settled(v)
    ensures v.near.phase.Idle? && !v.near.shuttingDown
  {
  }

  /** Reading on hands out everything the peer has sent. */
  lemma {:induction false} StreamDrains(c: Cipher, s: View, a: Side, left: nat) returns (t: View)
    requires Sound(c) && Inv(c, s) && FramableRun(c, s) && Settled(s.From(a))
    requires WithinLimit(History(c, a.Peer().Msb(), s.From(a).far.accepted))
    requires s.From(a).near.reader.sequenceNumber + left == |s.From(a).far.accepted|
    ensures Exec(c, s, AmpleReads(a, left)) == Some(t)
    ensures t.From(a).near.delivered == PlainAll(s.From(a).far.accepted)
    ensures t.From(a).far == s.From(a).far
    decreases left
  {
    hide Inv, FramableRun, Next, WithinLimit;
    if left == 0 {
      t := s;
      AllIsDelivered(c, s, a);
    } else {
      var s' := OneReadOn(c, s, a);
      t := StreamDrains(c, s', a, left - 1);
      assert AmpleReads(a, left)[1..] == AmpleReads(a, left - 1);
    }
  }

  lemma {:induction false} AllIsDelivered(c: Cipher, s: View, a: Side)
    requires Inv(c, s) && FramableRun(c, s) && Settled(s.From(a))
    requires s.From(a).near.reader.sequenceNumber == |s.From(a).far.accepted|
    ensures s.From(a).near.delivered == PlainAll(s.From(a).far.accepted)
  {
    SideInv(c, s, a);
    ReaderStands(c, a.Peer().Msb(), s.From(a));
    var plain := PlainAll(s.From(a).far.accepted);
    assert plain[..|plain|] == plain;
  }

  lemma {:induction false} SideInv(c: Cipher, s: View, a: Side)
    requires Inv(c, s) && FramableRun(c, s)
    ensures ViewInv(c, a.Msb(), a.Peer().Msb(), s.From(a))
    ensures AllFramed(History(c, a.Peer().Msb(), s.From(a).far.accepted))
  {
    hide Link, Books, AllFramed;
    if a == Server {
      Flip(c, Client.Msb(), Server.Msb(), s);
    }
  }

  /**
   * On a live connection nothing has to fail for packets to arrive: from every reachable state in
   * which both sides are settled on it, reads alone hand out everything the peer ever accepted.
   */
  lemma {:induction false} ReadsDeliverAll(c: Cipher, steps: seq<Step>, s: View, a: Side) returns (left: nat, t: View)
    requires Sound(c) && Reached(c, steps, s) && Settled(s.From(a))
    requires WithinLimit(History(c, a.Peer().Msb(), s.From(a).far.accepted))
    ensures Exec(c, Initial(), steps + AmpleReads(a, left)) == Some(t)
    ensures t.From(a).far.accepted == s.From(a).far.accepted
    ensures t.From(a).near.delivered == PlainAll(s.From(a).far.accepted)
  {
    ReachedInv(c, steps, s);
    SideInv(c, s, a);
    ReaderStands(c, a.Peer().Msb(), s.From(a));
    left := |s.From(a).far.accepted| - s.From(a).near.reader.sequenceNumber;
    hide Inv, Exec, Settled, WithinLimit, ViewInv, AllFramed;
    t := StreamDrains(c, s, a, left);
    ExecAppend(c, Initial(), steps, AmpleReads(a, left));
  }
}
