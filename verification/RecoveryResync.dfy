/**
 * From any reachable state the two sides can drop what they have and start over on a new
 * connection: exactly when the handshake goes through, and what both sides have then.
 */
module RecoveryResync {
  import opened Bytes
  import opened Packets
  import opened Nonces
  import opened SocketIo
  import opened BackedWriters
  import opened BackedReaders
  import opened Catchup
  import opened Recovery
  import opened RecoveryInvariant
  import opened RecoverySafety

  // ---------- giving up what is under way ----------

  function Quiet(e: Endpoint): Endpoint {
    CloseEnd(e.(phase := Idle))
  }

  /** A side abandons its write or its Recover and closes its socket. */
  function SettleSteps(a: Side, phase: Phase): seq<Step> {
    (if phase.Writing? then [Send(a, -1)] else if phase.Recovering() then [RecoverFails(a)] else [])
    + [Close(a)]
  }

  lemma {:induction false} ExecOne(c: Cipher, s: View, st: Step)
    ensures Exec(c, s, [st]) == Next(c, s, st)
  {
    hide Next;
    assert [st][1..] == [];
  }

  lemma {:induction false} SettleWorks(c: Cipher, s: View, a: Side)
    requires EndInv(s.From(a).near, s.From(a).out, s.From(a).inc)
    ensures var v := s.From(a);
            Exec(c, s, SettleSteps(a, v.near.phase)) == Some(v.(near := Quiet(v.near)).From(a))
  {
    var v := s.From(a);
    hide RecoverInv;
    if v.near.phase.Idle? {
      assert SettleSteps(a, v.near.phase) == [Close(a)];
      ExecOne(c, s, Close(a));
    } else {
      var first := if v.near.phase.Writing? then Send(a, -1) else RecoverFails(a);
      assert SettleSteps(a, v.near.phase) == [first] + [Close(a)];
      ExecAppend(c, s, [first], [Close(a)]);
      ExecOne(c, s, first);
      ExecOne(c, Next(c, s, first).value, Close(a));
    }
  }

  // ---------- the handshake on a fresh connection ----------

  /** Both sides idle with no socket. */
  ghost predicate Down(s: View) {
    && s.near.phase.Idle? && s.far.phase.Idle? && |s.out| == |s.inc|
    && s.near.socket == s.near.reader.socket == s.near.writer.socket == INVALID_SOCKET
    && s.far.socket == s.far.reader.socket == s.far.writer.socket == INVALID_SOCKET
  }

  function HelloSteps(k: nat): seq<Step> {
    [Connect, SendHello(Client, k), SendHello(Server, k), RecvHello(Client), RecvHello(Server)]
  }

  const CATCHUP_STEPS: seq<Step> :=
    [SendCatchup(Client), SendCatchup(Server), RecvCatchup(Client), RecvCatchup(Server)]

  function Hello(e: Endpoint): Channel {
    FRESH_CHANNEL.(hello := Some(e.reader.sequenceNumber))
  }

  function AfterHellos(s: View): View {
    var k := |s.out|;
    View(s.near.(phase := GotHello(k, Wrap32(s.far.reader.sequenceNumber))),
         s.far.(phase := GotHello(k, Wrap32(s.near.reader.sequenceNumber))),
         s.out + [Hello(s.near)], s.inc + [Hello(s.far)])
  }

  lemma {:induction false} ConnectStep(c: Cipher, s: View)
    ensures Next(c, s, Connect) == Some(s.(out := s.out + [FRESH_CHANNEL], inc := s.inc + [FRESH_CHANNEL]))
  {
  }

  lemma SetLast(q: seq<Channel>, x: Channel, y: Channel)
    ensures (q + [x])[|q| := y] == q + [y]
  {
  }

  lemma {:induction false} SendHelloStep(c: Cipher, v: View, a: Side, k: nat)
    requires v.near.phase.Idle? && k < |v.out| && v.out[k].hello.None?
    ensures Next(c, v.From(a), SendHello(a, k))
         == Some(v.(near := v.near.(phase := SentHello(k)),
                    out := v.out[k := v.out[k].(hello := Some(v.near.reader.sequenceNumber))]).From(a))
  {
  }

  lemma {:induction false} RecvHelloStep(c: Cipher, v: View, a: Side, k: nat, r: int)
    requires v.near.phase == SentHello(k) && k < |v.inc| && v.inc[k].hello == Some(r)
    ensures Next(c, v.From(a), RecvHello(a)) == Some(v.(near := v.near.(phase := GotHello(k, Wrap32(r)))).From(a))
  {
    hide Wrap32;
  }

  lemma {:induction false} HellosWork(c: Cipher, s: View)
    requires Down(s)
    ensures Exec(c, s, HelloSteps(|s.out|)) == Some(AfterHellos(s))
  {
    hide Wrap32;
    var k, steps := |s.out|, HelloSteps(|s.out|);
    var s1 := s.(out := s.out + [FRESH_CHANNEL], inc := s.inc + [FRESH_CHANNEL]);
    var s2 := s1.(near := s.near.(phase := SentHello(k)), out := s.out + [Hello(s.near)]);
    var s3 := s2.(far := s.far.(phase := SentHello(k)), inc := s.inc + [Hello(s.far)]);
    var s4 := s3.(near := AfterHellos(s).near);
    ConnectStep(c, s);
    hide Next;
    SetLast(s.out, FRESH_CHANNEL, Hello(s.near));
    SetLast(s.inc, FRESH_CHANNEL, Hello(s.far));
    SendHelloStep(c, s1, Client, k);
    SendHelloStep(c, s2.From(Server), Server, k);
    RecvHelloStep(c, s3, Client, k, s.far.reader.sequenceNumber);
    RecvHelloStep(c, s4.From(Server), Server, k, s.near.reader.sequenceNumber);
    ExecTrace(c, [s, s1, s2, s3, s4, AfterHellos(s)], steps);
  }

  /** A list of states, each the next of the one before, is a run. */
  lemma {:induction false} ExecTrace(c: Cipher, trace: seq<View>, steps: seq<Step>)
    requires |trace| == |steps| + 1
    requires forall i :: 0 <= i < |steps| ==> Next(c, trace[i], steps[i]) == Some(trace[i + 1])
    ensures Exec(c, trace[0], steps) == Some(trace[|steps|])
    decreases |steps|
  {
    hide Next;
    if steps != [] {
      ExecTrace(c, trace[1..], steps[1..]);
    }
  }

  /** What this side still holds covers what its peer, with count r, has not seen. */
  predicate Covers(w: WriterState, r: int) {
    w.sequenceNumber - |w.backup| <= r < TWO_TO_THE_31
  }

  /** The reply to a peer that has accepted r packets succeeds exactly if they are covered. */
  lemma {:induction false} ReplyExactlyIfCovered(c: Cipher, m: byte, w: WriterState, accepted: seq<Packet>, r: nat)
    requires WriterInv(c, m, w, accepted) && w.socket == INVALID_SOCKET && r <= |accepted|
    ensures RecoverFrom(w, Wrap32(r)).Replay? <==> Covers(w, r)
    ensures Covers(w, r) ==>
              && RecoverFrom(w, Wrap32(r)) == Replay(History(c, m, accepted)[r..])
              && |Encode(RecoverFrom(w, Wrap32(r)).packets)| <= MAX_FRAME
  {
    WrappedHeaderFailsClosed(c, m, w, accepted, r);
    RecoverIsHistorySuffix(c, m, w, accepted, r);
    CatchupFits(c, m, w, accepted, Wrap32(r));
  }

  function Offer(ch: Channel, e: Endpoint, ps: seq<bytes>): Channel {
    ch.(catchup := Some(Encode(ps)), base := |e.accepted|)
  }

  /** Both sides with the other's missing packets queued, on connection k. */
  function Revived(s: View, psNear: seq<bytes>, psFar: seq<bytes>): View {
    var k := |s.out|;
    View(ReviveEnd(s.near, k, psFar), ReviveEnd(s.far, k, psNear),
         s.out + [Offer(Hello(s.near), s.near, psNear)], s.inc + [Offer(Hello(s.far), s.far, psFar)])
  }

  lemma {:induction false} SendCatchupStep(c: Cipher, v: View, a: Side, k: nat, r: int, ps: seq<bytes>)
    requires v.near.phase == GotHello(k, r) && k < |v.out|
    requires RecoverFrom(v.near.writer, r) == Replay(ps) && |Encode(ps)| <= MAX_FRAME
    ensures Next(c, v.From(a), SendCatchup(a))
         == Some(v.(near := v.near.(phase := SentCatchup(k)),
                    out := v.out[k := Offer(v.out[k], v.near, ps)]).From(a))
  {
    hide RecoverFrom, Encode;
  }

  lemma {:induction false} RecvCatchupStep(c: Cipher, v: View, a: Side, k: nat, ps: seq<bytes>)
    requires v.near.phase == SentCatchup(k) && k < |v.inc| && v.inc[k].catchup == Some(Encode(ps))
    ensures Next(c, v.From(a), RecvCatchup(a)) == Some(v.(near := ReviveEnd(v.near, k, ps)).From(a))
  {
    CatchupRoundTrip(ps);
    hide Encode, Decode;
  }

  lemma {:induction false} CatchupsWork(c: Cipher, s: View, psNear: seq<bytes>, psFar: seq<bytes>)
    requires Down(s)
    requires RecoverFrom(s.near.writer, Wrap32(s.far.reader.sequenceNumber)) == Replay(psNear)
    requires RecoverFrom(s.far.writer, Wrap32(s.near.reader.sequenceNumber)) == Replay(psFar)
    requires |Encode(psNear)| <= MAX_FRAME && |Encode(psFar)| <= MAX_FRAME
    ensures Exec(c, AfterHellos(s), CATCHUP_STEPS) == Some(Revived(s, psNear, psFar))
  {
    hide RecoverFrom, Encode, Next, Wrap32;
    var k, s0, s4 := |s.out|, AfterHellos(s), Revived(s, psNear, psFar);
    var s1 := s0.(near := s.near.(phase := SentCatchup(k)), out := s4.out);
    var s2 := s1.(far := s.far.(phase := SentCatchup(k)), inc := s4.inc);
    var s3 := s2.(near := s4.near);
    assert s0.out[k := s4.out[k]] == s4.out && s0.inc[k := s4.inc[k]] == s4.inc;
    SendCatchupStep(c, s0, Client, k, s0.near.phase.remote, psNear);
    SendCatchupStep(c, s1.From(Server), Server, k, s0.far.phase.remote, psFar);
    RecvCatchupStep(c, s2, Client, k, psFar);
    RecvCatchupStep(c, s3.From(Server), Server, k, psNear);
    ExecTrace(c, [s0, s1, s2, s3, s4], CATCHUP_STEPS);
  }

  /** If either side no longer holds what the other misses, the catch-up exchange cannot end. */
  lemma {:induction false} RefusalStops(c: Cipher, s: View)
    requires Down(s)
    requires RecoverFrom(s.near.writer, Wrap32(s.far.reader.sequenceNumber)).Refused?
             || RecoverFrom(s.far.writer, Wrap32(s.near.reader.sequenceNumber)).Refused?
    ensures Exec(c, AfterHellos(s), CATCHUP_STEPS).None?
  {
    hide RecoverFrom, Encode, Decode;
    var k, s0 := |s.out|, AfterHellos(s);
    var s1 := Next(c, s0, SendCatchup(Client)).value;
    var s2 := Next(c, s1, SendCatchup(Server)).value;
    assert s1.far == s0.far && s1.inc == s0.inc;
    if RecoverFrom(s.near.writer, Wrap32(s.far.reader.sequenceNumber)).Refused? {
      assert s1.near.phase.Idle? && s2.near == s1.near;
    } else {
      assert s2.inc[k].catchup.None? && s2.near == s1.near;
    }
    assert Next(c, s2, RecvCatchup(Client)).None?;
    hide Next, AfterHellos;
    var steps := CATCHUP_STEPS;
    assert Exec(c, s2, steps[1..][1..]).None?;
  }

  // ---------- the whole outage ----------

  /** Both sides give up, meet on a new connection and exchange what is missing. */
  function ResyncSteps(s: View): seq<Step> {
    SettleSteps(Client, s.near.phase) + SettleSteps(Server, s.far.phase)
    + HelloSteps(|s.out|) + CATCHUP_STEPS
  }

  lemma {:induction false} SettleBoth(c: Cipher, s: View)
    requires EndInv(s.near, s.out, s.inc) && EndInv(s.far, s.inc, s.out)
    ensures var quiet := View(Quiet(s.near), Quiet(s.far), s.out, s.inc);
            && Down(quiet)
            && Exec(c, s, SettleSteps(Client, s.near.phase) + SettleSteps(Server, s.far.phase)) == Some(quiet)
  {
    hide Next;
    SettleWorks(c, s, Client);
    var s1 := s.(near := Quiet(s.near));
    hide RecoverInv;
    SettleWorks(c, s1, Server);
    hide Exec;
    ExecAppend(c, s, SettleSteps(Client, s.near.phase), SettleSteps(Server, s.far.phase));
  }

  /** The two halves of the exchange put together. */
  lemma {:induction false} HandshakeExactlyIfCovered(
    c: Cipher, m: byte, n: byte, s: View, h: seq<bytes>, hb: seq<bytes>)
    requires Down(s)
    requires WriterInv(c, m, s.near.writer, s.near.accepted) && h == History(c, m, s.near.accepted)
    requires WriterInv(c, n, s.far.writer, s.far.accepted) && hb == History(c, n, s.far.accepted)
    requires 0 <= s.near.reader.sequenceNumber <= |s.far.accepted|
    requires 0 <= s.far.reader.sequenceNumber <= |s.near.accepted|
    ensures var rn, rf := s.near.reader.sequenceNumber, s.far.reader.sequenceNumber;
            var end := Exec(c, s, HelloSteps(|s.out|) + CATCHUP_STEPS);
            && (end.Some? <==> Covers(s.near.writer, rf) && Covers(s.far.writer, rn))
            && (end.Some? ==> end == Some(Revived(s, h[rf..], hb[rn..])))
  {
    var rn, rf := s.near.reader.sequenceNumber, s.far.reader.sequenceNumber;
    HellosWork(c, s);
    ReplyExactlyIfCovered(c, m, s.near.writer, s.near.accepted, rf);
    ReplyExactlyIfCovered(c, n, s.far.writer, s.far.accepted, rn);
    hide Exec, WriterInv, RecoverFrom, AfterHellos;
    ExecAppend(c, s, HelloSteps(|s.out|), CATCHUP_STEPS);
    if Covers(s.near.writer, rf) && Covers(s.far.writer, rn) {
      CatchupsWork(c, s, h[rf..], hb[rn..]);
    } else {
      RefusalStops(c, s);
    }
  }

  /** Both counters and both backlogs, as far as the exchange depends on them. */
  lemma {:induction false} CountsInRange(c: Cipher, m: byte, e: Endpoint, r: Endpoint)
    requires Books(c, m, e, r)
    ensures 0 <= r.reader.sequenceNumber <= |e.accepted| && WriterInv(c, m, e.writer, e.accepted)
  {
    hide LongestFitting;
  }

  lemma {:induction false} ResyncFrom(c: Cipher, s: View)
    requires Inv(c, s)
    ensures var h, hb := History(c, Client.Msb(), s.near.accepted), History(c, Server.Msb(), s.far.accepted);
            var rn, rf := s.near.reader.sequenceNumber, s.far.reader.sequenceNumber;
            var end := Exec(c, s, ResyncSteps(s));
            && 0 <= rn <= |hb| && 0 <= rf <= |h|
            && (end.Some? <==> Covers(s.near.writer, rf) && Covers(s.far.writer, rn))
            && (end.Some? ==>
                  end == Some(Revived(View(Quiet(s.near), Quiet(s.far), s.out, s.inc), h[rf..], hb[rn..])))
  {
    hide Books, Chans, LiveWriter, LiveReader, Exec, Next, WriterInv, RecoverInv, Revived;
    CountsInRange(c, Client.Msb(), s.near, s.far);
    CountsInRange(c, Server.Msb(), s.far, s.near);
    var h, hb := History(c, Client.Msb(), s.near.accepted), History(c, Server.Msb(), s.far.accepted);
    var quiet := View(Quiet(s.near), Quiet(s.far), s.out, s.inc);
    SettleBoth(c, s);
    QuietWriterInv(c, Client.Msb(), s.near);
    QuietWriterInv(c, Server.Msb(), s.far);
    HandshakeExactlyIfCovered(c, Client.Msb(), Server.Msb(), quiet, h, hb);
    var settle := SettleSteps(Client, s.near.phase) + SettleSteps(Server, s.far.phase);
    ExecAppend(c, s, settle, HelloSteps(|s.out|) + CATCHUP_STEPS);
    assert ResyncSteps(s) == settle + (HelloSteps(|s.out|) + CATCHUP_STEPS);
  }

  lemma {:induction false} QuietWriterInv(c: Cipher, m: byte, e: Endpoint)
    requires WriterInv(c, m, e.writer, e.accepted)
    ensures WriterInv(c, m, Quiet(e).writer, Quiet(e).accepted)
  {
  }

  /**
   * The exchange goes through exactly when each side's backlog still reaches back to what its
   * peer has counted and the counts fit the header. Then both sides are live on the new
   * connection and each has counted, once, everything its peer ever accepted.
   */
  lemma {:induction false} ResyncExactlyIfCovered(c: Cipher, steps: seq<Step>, s: View)
    requires Sound(c) && Reached(c, steps, s)
    ensures Exec(c, s, ResyncSteps(s)).Some?
            <==> Covers(s.near.writer, s.far.reader.sequenceNumber)
                 && Covers(s.far.writer, s.near.reader.sequenceNumber)
    ensures Exec(c, s, ResyncSteps(s)).Some? ==>
              var t := Exec(c, s, ResyncSteps(s)).value;
              && t.near.socket == t.far.socket == |s.out|
              && t.near.accepted == s.near.accepted && t.far.accepted == s.far.accepted
              && t.near.reader.sequenceNumber == |t.far.accepted|
              && t.far.reader.sequenceNumber == |t.near.accepted|
  {
    ReachedInv(c, steps, s);
    hide Inv, Exec;
    ResyncFrom(c, s);
  }

  // ---------- draining the queue ----------

  function Reads(a: Side, n: nat): seq<Step> {
    seq(n, _ => Read(a, 0, 0))
  }

  /** Reading hands out the queued packets one by one and touches nothing else. */
  lemma {:induction false} DrainWorks(c: Cipher, n: byte, v: View, a: Side) returns (t: View)
    requires Sound(c) && Books(c, n, v.far, v.near)
    requires !v.near.phase.Recovering() && !v.near.shuttingDown && 0 <= v.near.reader.socket < |v.inc|
    ensures Exec(c, v.From(a), Reads(a, |v.near.reader.queue|)) == Some(t.From(a))
    ensures t.far == v.far && t.out == v.out && t.inc == v.inc
    ensures t.near.accepted == v.near.accepted && t.near.writer == v.near.writer
    ensures t.near.socket == v.near.socket && t.near.phase == v.near.phase
    ensures t.near.delivered == PlainAll(v.far.accepted)[..v.near.reader.sequenceNumber]
    decreases |v.near.reader.queue|
  {
    hide WriterInv, OnlyOversizeThrows;
    var e := v.near;
    var steps, h, plain := Reads(a, |e.reader.queue|), History(c, n, v.far.accepted), PlainAll(v.far.accepted);
    if e.reader.queue == [] {
      t := v;
    } else {
      HistoryOpens(c, n, v.far.accepted);
      var f := Feed(v.inc[e.reader.socket].flight, [0, 0]);
      ReadQueuedKeeps(c, n, e.reader, h, plain, e.delivered, f);
      var o := ReaderRead(c, e.reader, f);
      hide ReaderRead, Opens;
      var v' := v.(near := ReadEnd(e, o));
      assert v.inc[e.reader.socket := v.inc[e.reader.socket].(flight := f.inbox)] == v.inc;
      assert Next(c, v.From(a), steps[0]) == Some(v'.From(a));
      assert steps[1..] == Reads(a, |v'.near.reader.queue|);
      hide Next;
      t := DrainWorks(c, n, v', a);
    }
  }

  /**
   * Any outage can be survived as long as the backlogs cover it: some continuation ends with
   * every packet either side ever accepted handed out at the other side, once and in order.
   */
  lemma {:induction false} OutageSurvived(c: Cipher, steps: seq<Step>, s: View)
    returns (more: seq<Step>, t: View)
    requires Sound(c) && Reached(c, steps, s)
    requires !s.near.shuttingDown && !s.far.shuttingDown
    requires Covers(s.near.writer, s.far.reader.sequenceNumber)
    requires Covers(s.far.writer, s.near.reader.sequenceNumber)
    ensures Exec(c, Initial(), steps + more) == Some(t)
    ensures t.near.accepted == s.near.accepted && t.far.accepted == s.far.accepted
    ensures t.near.delivered == PlainAll(s.far.accepted)
    ensures t.far.delivered == PlainAll(s.near.accepted)
  {
    hide Exec, Inv, Books, Framable, Covers, ResyncSteps, Reads;
    ReachedInv(c, steps, s);
    var t1 := Resynced(c, s);
    var drain;
    drain, t := DrainBoth(c, t1);
    more := ResyncSteps(s) + drain;
    ExecAppend(c, s, ResyncSteps(s), drain);
    ExecAppend(c, Initial(), steps, more);
  }

  /** Both queues are handed out, first the client's. */
  lemma {:induction false} DrainBoth(c: Cipher, t1: View) returns (drain: seq<Step>, t: View)
    requires Sound(c) && Books(c, Server.Msb(), t1.far, t1.near) && Books(c, Client.Msb(), t1.near, t1.far)
    requires t1.near.phase.Idle? && t1.far.phase.Idle? && !t1.near.shuttingDown && !t1.far.shuttingDown
    requires 0 <= t1.near.reader.socket < |t1.inc| && 0 <= t1.far.reader.socket < |t1.out|
    requires t1.near.reader.sequenceNumber == |t1.far.accepted|
    requires t1.far.reader.sequenceNumber == |t1.near.accepted|
    ensures Exec(c, t1, drain) == Some(t)
    ensures t.near.accepted == t1.near.accepted && t.far.accepted == t1.far.accepted
    ensures t.near.delivered == PlainAll(t1.far.accepted) && t.far.delivered == PlainAll(t1.near.accepted)
  {
    var t2 := DrainWorks(c, Server.Msb(), t1, Client);
    assert Books(c, Client.Msb(), t2.near, t2.far) by {
      hide WriterInv, ReaderInv, OnlyOversizeThrows;
    }
    hide Exec, Books;
    var t3 := DrainWorks(c, Client.Msb(), t2.From(Server), Server);
    t := t3.From(Server);
    var reads1, reads2 := Reads(Client, |t1.near.reader.queue|), Reads(Server, |t1.far.reader.queue|);
    drain := reads1 + reads2;
    ExecAppend(c, t1, reads1, reads2);
    assert PlainAll(t1.far.accepted)[..|t1.far.accepted|] == PlainAll(t1.far.accepted);
    assert PlainAll(t1.near.accepted)[..|t1.near.accepted|] == PlainAll(t1.near.accepted);
  }

  /** The state after the exchange, ready to be drained. */
  lemma {:induction false} Resynced(c: Cipher, s: View) returns (t: View)
    requires Sound(c) && Inv(c, s) && FramableRun(c, s)
    requires !s.near.shuttingDown && !s.far.shuttingDown
    requires Covers(s.near.writer, s.far.reader.sequenceNumber)
    requires Covers(s.far.writer, s.near.reader.sequenceNumber)
    ensures Exec(c, s, ResyncSteps(s)) == Some(t)
    ensures Books(c, Server.Msb(), t.far, t.near) && Books(c, Client.Msb(), t.near, t.far)
    ensures t.near.accepted == s.near.accepted && t.far.accepted == s.far.accepted
    ensures t.near.phase.Idle? && t.far.phase.Idle?
    ensures !t.near.shuttingDown && !t.far.shuttingDown
    ensures 0 <= t.near.reader.socket < |t.inc| && 0 <= t.far.reader.socket < |t.out|
    ensures t.near.reader.sequenceNumber == |s.far.accepted|
    ensures t.far.reader.sequenceNumber == |s.near.accepted|
  {
    hide Link, Exec, Books;
    ResyncFrom(c, s);
    t := Exec(c, s, ResyncSteps(s)).value;
    assert EndInv(s.near, s.out, s.inc) by {
      LinkSides(c, s);
    }
    ExecKeepsInv(c, s, ResyncSteps(s));
  }

  lemma LinkSides(c: Cipher, s: View)
    requires Inv(c, s)
    ensures EndInv(s.near, s.out, s.inc) && EndInv(s.far, s.inc, s.out)
  {
    hide Chans, LiveWriter, LiveReader, EndInv;
  }
}
