/** What the invariant means for whole runs of the two-endpoint system. */
module RecoverySafety {
  import opened Bytes
  import opened Packets
  import opened Nonces
  import opened SocketIo
  import opened BackedWriters
  import opened BackedReaders
  import opened Catchup
  import opened Recovery
  import opened RecoveryInvariant

  /** Every packet accepted so far fits the 32-bit length field of a frame. */
  ghost predicate FramableRun(c: Cipher, s: View) {
    Framable(c, Client.Msb(), Server.Msb(), s)
  }

  // ---------- runs ----------

  lemma {:induction false} NextKeepsInv(c: Cipher, s: View, st: Step)
    requires Sound(c) && Inv(c, s) && FramableRun(c, s) && Next(c, s, st).Some?
    ensures Inv(c, Next(c, s, st).value)
  {
    hide Link, Books;
    if By(st) == Client {
      DoKeeps(c, Client.Msb(), Server.Msb(), s, st);
    } else {
      Flip(c, Client.Msb(), Server.Msb(), s);
      DoKeeps(c, Server.Msb(), Client.Msb(), s.From(Server), st);
      Flip(c, Server.Msb(), Client.Msb(), Do(c, s.From(Server), st).value);
    }
  }

  /** Logs are only ever appended to. */
  ghost predicate LogsGrow(s: View, s': View) {
    && s.near.accepted <= s'.near.accepted && s.near.delivered <= s'.near.delivered
    && s.far.accepted <= s'.far.accepted && s.far.delivered <= s'.far.delivered
  }

  /** A step changes its own endpoint, and that one's logs only grow. */
  lemma {:induction false} DoGrows(c: Cipher, v: View, st: Step)
    requires Do(c, v, st).Some?
    ensures var v' := Do(c, v, st).value;
            && v'.far == v.far && |v.out| <= |v'.out| && |v.inc| <= |v'.inc|
            && v.near.accepted <= v'.near.accepted && v.near.delivered <= v'.near.delivered
            && (st.Connect? ==> v'.near == v.near)
  {
    hide RecoverFrom, Encode, Decode, ReaderRead, Accept, FrameToSend, Clip;
  }

  /** Nor does a step rewrite what the other side has sent of a handshake. */
  lemma {:induction false} DoKeepsMessages(c: Cipher, v: View, st: Step, k: nat)
    requires Do(c, v, st).Some? && k < |v.inc|
    ensures var v' := Do(c, v, st).value;
            && k < |v'.inc|
            && v'.inc[k].hello == v.inc[k].hello && v'.inc[k].catchup == v.inc[k].catchup
  {
    hide RecoverFrom, Encode, Decode, ReaderRead, Accept, FrameToSend, Clip;
  }

  lemma {:induction false} NextGrows(c: Cipher, s: View, st: Step)
    requires Next(c, s, st).Some?
    ensures LogsGrow(s, Next(c, s, st).value)
  {
    hide Do;
    DoGrows(c, s.From(By(st)), st);
  }

  lemma {:induction false} ExecGrows(c: Cipher, s: View, steps: seq<Step>)
    requires Exec(c, s, steps).Some?
    ensures LogsGrow(s, Exec(c, s, steps).value)
    decreases |steps|
  {
    if steps != [] {
      NextGrows(c, s, steps[0]);
      ExecGrows(c, Next(c, s, steps[0]).value, steps[1..]);
    }
  }

  lemma {:induction false} AllFramedPrefix(c: Cipher, m: byte, accepted: seq<Packet>, more: seq<Packet>)
    requires accepted <= more && AllFramed(History(c, m, more))
    ensures AllFramed(History(c, m, accepted))
  {
    HistoryPrefix(c, m, more, |accepted|);
    assert more[..|accepted|] == accepted;
  }

  lemma {:induction false} ExecKeepsInv(c: Cipher, s: View, steps: seq<Step>)
    requires Sound(c) && Inv(c, s) && Exec(c, s, steps).Some?
    requires FramableRun(c, Exec(c, s, steps).value)
    ensures Inv(c, Exec(c, s, steps).value)
    decreases |steps|
  {
    hide Link, Books, Next, AllFramed;
    if steps != [] {
      var end := Exec(c, s, steps).value;
      ExecGrows(c, s, steps);
      AllFramedPrefix(c, Client.Msb(), s.near.accepted, end.near.accepted);
      AllFramedPrefix(c, Server.Msb(), s.far.accepted, end.far.accepted);
      NextKeepsInv(c, s, steps[0]);
      ExecKeepsInv(c, Next(c, s, steps[0]).value, steps[1..]);
    }
  }

  /** A state some run of the program reaches. */
  ghost predicate Reached(c: Cipher, steps: seq<Step>, s: View) {
    Exec(c, Initial(), steps) == Some(s) && FramableRun(c, s)
  }

  lemma {:induction false} ReachedInv(c: Cipher, steps: seq<Step>, s: View)
    requires Sound(c) && Reached(c, steps, s)
    ensures Inv(c, s)
  {
    InitialInv(c);
    ExecKeepsInv(c, Initial(), steps);
  }

  lemma {:induction false} ReachedSide(c: Cipher, steps: seq<Step>, s: View, a: Side)
    requires Sound(c) && Reached(c, steps, s)
    ensures ViewInv(c, a.Msb(), a.Peer().Msb(), s.From(a))
  {
    hide Link, Books;
    ReachedInv(c, steps, s);
    if a == Server {
      Flip(c, Client.Msb(), Server.Msb(), s);
    }
  }

  // ---------- delivery ----------

  /** What the queued catch-up packets will be handed out as, from the reader's nonce on. */
  function OpenQueue(c: Cipher, nonce: nat, queue: seq<bytes>): Option<seq<Packet>>
    decreases |queue|
  {
    if queue == [] then Some([])
    else
      match Unseal(c, nonce, queue[0])
      case (_, None) => None
      case (nonce', Some(p)) =>
        match OpenQueue(c, nonce', queue[1..])
        case None => None
        case Some(ps) => Some([p] + ps)
  }

  lemma {:induction false} OpenQueueIsNext(
    c: Cipher, m: byte, h: seq<bytes>, plain: seq<Packet>, i: nat, j: nat)
    requires Opens(c, m, h, plain) && i <= j <= |h|
    ensures OpenQueue(c, NonceAt(m, i), h[i..j]) == Some(plain[i..j])
    decreases j - i
  {
    if i < j {
      assert h[i..j][0] == h[i] && h[i..j][1..] == h[i + 1..j];
      assert Unseal(c, NonceAt(m, i), h[i]) == (NonceAt(m, i + 1), Some(plain[i]));
      OpenQueueIsNext(c, m, h, plain, i + 1, j);
      assert [plain[i]] + plain[i + 1..j] == plain[i..j];
    } else {
      assert h[i..j] == [] && plain[i..j] == [];
    }
  }

  /**
   * No loss, duplication or reordering: in every reachable state, what a side has handed out
   * followed by what its queue opens to is a prefix of what its peer's writer accepted.
   */
  lemma {:induction false} DeliveryIsPrefix(c: Cipher, steps: seq<Step>, s: View, a: Side)
    requires Sound(c) && Reached(c, steps, s)
    ensures var me, peer := s.From(a).near, s.From(a).far;
            var queued := OpenQueue(c, me.reader.nonce, me.reader.queue);
            && queued.Some?
            && me.delivered + queued.value <= PlainAll(peer.accepted)
            && |me.delivered + queued.value| == me.reader.sequenceNumber
  {
    hide Link, Exec, AllFramed, WriterInv, OnlyOversizeThrows, FrameCat;
    ReachedSide(c, steps, s, a);
    var me, peer, m := s.From(a).near, s.From(a).far, a.Peer().Msb();
    var h, plain := History(c, m, peer.accepted), PlainAll(peer.accepted);
    HistoryOpens(c, m, peer.accepted);
    hide Opens, Unseal;
    var i, j := |me.delivered|, me.reader.sequenceNumber;
    OpenQueueIsNext(c, m, h, plain, i, j);
    assert plain[..i] + plain[i..j] == plain[..j];
  }

  /** Each packet handed out has the header and the payload it was written with, in the clear. */
  lemma {:induction false} DeliveredAsWritten(c: Cipher, steps: seq<Step>, s: View, a: Side, i: nat)
    requires Sound(c) && Reached(c, steps, s) && i < |s.From(a).near.delivered|
    ensures i < |s.From(a).far.accepted|
    ensures var p := s.From(a).far.accepted[i];
            s.From(a).near.delivered[i] == Packet(false, p.header, p.payload)
  {
    DeliveryIsPrefix(c, steps, s, a);
    hide Reached, OpenQueue;
    PlainAllAt(s.From(a).far.accepted, i);
  }

  /** Nothing handed out is ever taken back, and accepted packets are never rewritten. */
  lemma {:induction false} LogsOnlyGrow(c: Cipher, steps: seq<Step>, more: seq<Step>)
    requires Exec(c, Initial(), steps).Some? && Exec(c, Initial(), steps + more).Some?
    ensures LogsGrow(Exec(c, Initial(), steps).value, Exec(c, Initial(), steps + more).value)
  {
    ExecAppend(c, Initial(), steps, more);
    ExecGrows(c, Exec(c, Initial(), steps).value, more);
  }

  lemma {:induction false} ExecAppend(c: Cipher, s: View, steps: seq<Step>, more: seq<Step>)
    ensures Exec(c, s, steps + more)
            == if Exec(c, s, steps).None? then None else Exec(c, Exec(c, s, steps).value, more)
    decreases |steps|
  {
    hide Next;
    if steps == [] {
      assert steps + more == more;
    } else {
      assert (steps + more)[1..] == steps[1..] + more;
      if Next(c, s, steps[0]).Some? {
        ExecAppend(c, Next(c, s, steps[0]).value, steps[1..], more);
      }
    }
  }

  /**
   * Nothing is lost: once both sides sit on the same connection, with no write under way, every
   * byte read and the queue drained, the receiver has been handed everything ever accepted.
   */
  lemma {:induction false} DrainedMeansAll(c: Cipher, steps: seq<Step>, s: View, a: Side)
    requires Sound(c) && Reached(c, steps, s)
    requires var v := s.From(a);
             && 0 <= v.near.socket == v.far.socket < |v.inc|
             && v.far.phase.Idle?
             && v.inc[v.near.socket].flight == [] && v.near.reader.queue == []
    ensures s.From(a).near.delivered == PlainAll(s.From(a).far.accepted)
    ensures s.From(a).near.reader.partial == []
  {
    hide Link, FrameCat;
    ReachedSide(c, steps, s, a);
    var v := s.From(a);
    DrainedLink(History(c, a.Msb(), v.near.accepted), History(c, a.Peer().Msb(), v.far.accepted), v);
  }

  lemma {:induction false} DrainedLink(h: seq<bytes>, hb: seq<bytes>, v: View)
    requires Link(h, hb, v)
    requires 0 <= v.near.socket == v.far.socket < |v.inc| && v.far.phase.Idle?
    requires v.inc[v.near.socket].flight == []
    ensures v.near.reader.sequenceNumber == |hb| && v.near.reader.partial == []
  {
    hide FrameCat, ChanInv, StreamInv;
    var ch := v.inc[v.near.socket];
    assert ch.sent + [] == ch.sent;
    AllReadMeansAllCounted(hb, ch.base, v.near.reader, ch.sent);
  }

  lemma {:induction false} AllReadMeansAllCounted(h: seq<bytes>, base: nat, r: ReaderState, sent: bytes)
    requires StreamInv(h, base, r, sent, |sent|) && sent == FrameCat(h[base..])
    ensures r.sequenceNumber == |h| && r.partial == []
  {
    var n := r.sequenceNumber;
    assert sent[..|sent|] == sent;
    StreamSplit(h, base, n);
    if n < |h| {
      assert |sent| >= |FrameCat(h[base..n])| + |FrameOf(h[n])|;
      assert false;
    } else {
      assert h[n..] == [];
    }
  }

  // ---------- counters and nonces ----------

  /**
   * The counters of a fixed pair: a reader is never ahead of its peer's writer, each nonce
   * counter is exactly where its packets are, and Recover never meets a peer that is ahead.
   */
  lemma {:induction false} CountersInStep(c: Cipher, steps: seq<Step>, s: View, a: Side)
    requires Sound(c) && Reached(c, steps, s)
    ensures var me, peer := s.From(a).near, s.From(a).far;
            && me.reader.sequenceNumber <= peer.writer.sequenceNumber == |peer.accepted|
            && peer.writer.nonce == NonceAt(a.Peer().Msb(), peer.writer.sequenceNumber)
            && |me.delivered| == me.reader.sequenceNumber - |me.reader.queue|
            && me.reader.nonce == NonceAt(a.Peer().Msb(), |me.delivered|)
    ensures var v := s.From(a);
            v.near.phase.GotHello? ==> v.near.phase.remote <= v.near.writer.sequenceNumber
  {
    ReachedSide(c, steps, s, a);
    var v := s.From(a);
    hide Chans, ChanInv, StreamInv, LongestFitting, FrameCat;
    if v.near.phase.GotHello? {
      HelloNotAhead(c, v, a);
    }
  }

  lemma {:induction false} HelloNotAhead(c: Cipher, v: View, a: Side)
    requires ViewInv(c, a.Msb(), a.Peer().Msb(), v) && v.near.phase.GotHello?
    ensures v.near.phase.remote <= v.near.writer.sequenceNumber
  {
    hide StreamInv, LongestFitting, FrameCat;
    var k := v.near.phase.conn;
    assert ChanInv(History(c, a.Msb(), v.near.accepted), v.out[k], v.inc[k]);
    Wrap32FallsShort(v.inc[k].hello.value);
  }

  // ---------- streams and exceptions ----------

  /**
   * What a side sent on any connection, live or dead, is whole frames of its history from the
   * handshake on, and then at most one cut short; on the live connection between two writes
   * nothing is cut short and nothing is missing.
   */
  lemma {:induction false} StreamsAreFrames(c: Cipher, steps: seq<Step>, s: View, a: Side, k: nat)
    returns (i: nat, part: bytes)
    requires Sound(c) && Reached(c, steps, s) && k < |s.From(a).out|
    ensures var v := s.From(a);
            var h, ch := History(c, a.Msb(), v.near.accepted), v.out[k];
            && ch.base <= i <= |h|
            && ch.sent == FrameCat(h[ch.base..i]) + part
            && (part != [] ==> i < |h| && part <= FrameOf(h[i]) && |part| < |FrameOf(h[i])|)
            && (v.near.socket == k && v.near.phase.Idle? ==> i == |h| && part == [])
  {
    hide Link, FrameCat, FrameOf, Exec;
    ReachedSide(c, steps, s, a);
    var v := s.From(a);
    i, part := StreamOfLink(History(c, a.Msb(), v.near.accepted), History(c, a.Peer().Msb(), v.far.accepted), v, k);
  }

  lemma {:induction false} StreamOfLink(h: seq<bytes>, hb: seq<bytes>, v: View, k: nat)
    returns (i: nat, part: bytes)
    requires Link(h, hb, v) && k < |v.out|
    ensures var ch := v.out[k];
            && ch.base <= i <= |h|
            && ch.sent == FrameCat(h[ch.base..i]) + part
            && (part != [] ==> i < |h| && part <= FrameOf(h[i]) && |part| < |FrameOf(h[i])|)
            && (v.near.socket == k && v.near.phase.Idle? ==> i == |h| && part == [])
  {
    hide FrameCat, FrameOf, StreamInv, RecoverInv;
    var ch := v.out[k];
    assert ChanInv(h, ch, v.inc[k]);
    if v.near.socket == k && v.near.phase.Idle? {
      assert ch.sent + [] == ch.sent == FrameCat(h[ch.base..]);
      i, part := |h|, [];
      assert h[ch.base..|h|] == h[ch.base..];
    } else {
      i, part := FramesAndPart(h[ch.base..], ch.sent);
      i := ch.base + i;
      assert h[ch.base..i] == h[ch.base..][..i - ch.base];
    }
  }

  ghost predicate WithinLimit(h: seq<bytes>) {
    forall i :: 0 <= i < |h| ==> |h[i]| <= MAX_FRAME
  }

  /** No decryption or framing exception is ever raised while packets stay within 128 MiB. */
  lemma {:induction false} NothingThrows(c: Cipher, steps: seq<Step>, s: View, a: Side)
    requires Sound(c) && Reached(c, steps, s)
    requires WithinLimit(History(c, a.Peer().Msb(), s.From(a).far.accepted))
    ensures !s.From(a).near.threw
  {
    hide Link, WriterInv, ReaderInv, Exec, AllFramed;
    ReachedSide(c, steps, s, a);
  }

  // ---------- Recover ----------

  /** The steps of a Recover that has not succeeded. */
  predicate FailingRecover(st: Step) {
    st.SendHello? || st.RecvHello? || st.SendCatchup? || st.RecoverFails?
  }

  lemma {:induction false} RecoverStepLeavesEnd(c: Cipher, s: View, st: Step, a: Side)
    requires Next(c, s, st).Some? && (By(st) == a ==> FailingRecover(st) || st.Connect?)
    ensures Next(c, s, st).value.From(a).near
            == s.From(a).near.(phase := Next(c, s, st).value.From(a).near.phase)
  {
    DoGrows(c, s.From(By(st)), st);
    if By(st) == a && !st.Connect? {
      FailingStepLeavesEnd(c, s.From(a), st);
    }
    hide Do;
  }

  lemma {:induction false} FailingStepLeavesEnd(c: Cipher, v: View, st: Step)
    requires Do(c, v, st).Some? && FailingRecover(st)
    ensures var e' := Do(c, v, st).value.near;
            e' == v.near.(phase := e'.phase)
  {
    hide RecoverFrom, Encode;
  }

  /**
   * A Recover that fails, at whichever of its messages, leaves its side exactly as it was,
   * whatever the peer does meanwhile (the peer may well have finished).
   */
  lemma {:induction false} FailedRecoverLeavesNoTrace(c: Cipher, s: View, steps: seq<Step>, a: Side)
    requires Exec(c, s, steps).Some?
    requires forall i :: 0 <= i < |steps| && By(steps[i]) == a ==> FailingRecover(steps[i]) || steps[i].Connect?
    ensures var end := Exec(c, s, steps).value.From(a).near;
            && end == s.From(a).near.(phase := end.phase)
            && (s.From(a).near.phase.Idle? && end.phase.Idle? ==> end == s.From(a).near)
    decreases |steps|
  {
    hide Next;
    if steps != [] {
      RecoverStepLeavesEnd(c, s, steps[0], a);
      FailedRecoverLeavesNoTrace(c, Next(c, s, steps[0]).value, steps[1..], a);
    }
  }

  /**
   * A Recover that succeeds brings the reader to the count its peer's writer had when it sent
   * the catch-up; that is still the writer's count while the peer is finishing the same Recover,
   * and until it starts to write on this connection.
   */
  lemma {:induction false} RevivedInSync(c: Cipher, steps: seq<Step>, s: View, a: Side)
    requires Sound(c) && Reached(c, steps, s)
    requires Next(c, s, RecvCatchup(a)).Some?
    ensures var v, v' := s.From(a), Next(c, s, RecvCatchup(a)).value.From(a);
            var k := v.near.phase.conn;
            && v'.near.socket == v'.near.reader.socket == v'.near.writer.socket == k
            && v'.near.reader.sequenceNumber == v.inc[k].base
            && (v.far.phase == SentCatchup(k) || (v.far.socket == k && v.far.phase.Idle? && v.inc[k].sent == [])
                ==> v'.near.reader.sequenceNumber == v'.far.writer.sequenceNumber)
  {
    hide Link, Books, Exec, AllFramed, DoRecvCatchup;
    ReachedSide(c, steps, s, a);
    ViewRevivedInSync(c, a.Msb(), a.Peer().Msb(), s.From(a));
  }

  lemma {:induction false} ViewRevivedInSync(c: Cipher, m: byte, n: byte, v: View)
    requires ViewInv(c, m, n, v) && DoRecvCatchup(v).Some?
    ensures var v', k := DoRecvCatchup(v).value, v.near.phase.conn;
            && v'.far == v.far
            && v'.near.socket == v'.near.reader.socket == v'.near.writer.socket == k
            && v'.near.reader.sequenceNumber == v.inc[k].base
            && (v.far.phase == SentCatchup(k) || (v.far.socket == k && v.far.phase.Idle? && v.inc[k].sent == [])
                ==> v'.near.reader.sequenceNumber == v'.far.writer.sequenceNumber)
  {
    hide FrameCat, FrameOf, ChanInv, StreamInv, ReaderInv, LongestFitting, Newest;
    var k := v.near.phase.conn;
    RecvCatchupKeeps(c, m, n, v);
    var h, hb := History(c, m, v.near.accepted), History(c, n, v.far.accepted);
    assert EndInv(v.far, v.inc, v.out) && WriterInv(c, n, v.far.writer, v.far.accepted);
    assert LiveWriter(hb, v.far.socket, v.far.phase.Rest(), v.inc);
    if v.far.socket == k && v.far.phase.Idle? && v.inc[k].sent == [] {
      assert v.inc[k].sent + [] == [];
      NothingSentMeansNothingNew(hb, v.inc[k].base);
    }
  }

  lemma {:induction false} NothingSentMeansNothingNew(h: seq<bytes>, base: nat)
    requires base <= |h|
    ensures FrameCat(h[base..]) == [] ==> base == |h|
  {
    if base < |h| {
      assert |FrameCat(h[base..])| >= |FrameOf(h[base..][0])| >= 4;
    }
  }
}
