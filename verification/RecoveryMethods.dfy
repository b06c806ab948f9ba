/** Each method of Connection is a run of steps of the two-endpoint system. */
module RecoveryMethods {
  import opened Bytes
  import opened Packets
  import opened Nonces
  import opened SocketIo
  import opened BackedWriters
  import opened BackedReaders
  import opened Catchup
  import opened Recovery
  import opened RecoverySafety
  import opened RecoveryResync
  import opened Connections

  /** Accept, one send of n bytes, and a failed send if that is not the whole frame. */
  function WriteSteps(a: Side, p: Packet, n: nat, frame: nat): seq<Step> {
    [StartWrite(a, p)] + (if n > 0 then [Send(a, n)] else []) + (if n < frame then [Send(a, -1)] else [])
  }

  /** A Write that gets n bytes out leaves the endpoint and the stream as these steps do. */
  lemma {:induction false} WriteIsSteps(c: Cipher, s: View, a: Side, p: Packet, n: nat)
    requires var e := s.From(a).near;
             && e.phase.Idle? && 0 <= e.socket == e.writer.socket < |s.From(a).out|
             && n <= |FrameToSend(c, e.writer, p)|
    ensures var v := s.From(a);
            var k, frame := v.near.socket, FrameToSend(c, v.near.writer, p);
            Exec(c, s, WriteSteps(a, p, n, |frame|))
            == Some(v.(near := WroteEnd(c, v.near, p, n),
                       out := v.out[k := SendOn(v.out[k], frame[..n])]).From(a))
  {
    var v := s.From(a);
    var k, frame := v.near.socket, FrameToSend(c, v.near.writer, p);
    hide FrameToSend, Accept, Next, Exec;
    var v1 := v.(near := AcceptEnd(c, v.near, p));
    AcceptStep(c, v, a, p);
    var v2 := AfterSend(v1, frame, n);
    var sends, fails := if n > 0 then [Send(a, n)] else [], if n < |frame| then [Send(a, -1)] else [];
    SendStep(c, v1, a, frame, n);
    FailStep(c, v, v2, a, p, n);
    ExecAppend(c, s, [StartWrite(a, p)] + sends, fails);
    ExecAppend(c, s, [StartWrite(a, p)], sends);
    ExecOne(c, s, StartWrite(a, p));
  }

  /** The view after n bytes of the frame in hand have gone out. */
  function AfterSend(v: View, frame: bytes, n: nat): View
    requires n <= |frame| && 0 <= v.near.socket < |v.out|
  {
    v.(near := v.near.(phase := if n == |frame| then Idle else Writing(frame[n..])),
       out := v.out[v.near.socket := SendOn(v.out[v.near.socket], frame[..n])])
  }

  lemma {:induction false} AcceptStep(c: Cipher, v: View, a: Side, p: Packet)
    requires v.near.phase.Idle? && 0 <= v.near.socket == v.near.writer.socket
    ensures var frame := FrameToSend(c, v.near.writer, p);
            && frame != []
            && Next(c, v.From(a), StartWrite(a, p)) == Some(v.(near := AcceptEnd(c, v.near, p)).From(a))
            && AcceptEnd(c, v.near, p).phase == Writing(frame)
            && AcceptEnd(c, v.near, p).writer.socket == v.near.socket
  {
    assert Accept(c, v.near.writer, p).socket == v.near.socket;
    hide Accept;
    assert |FrameToSend(c, v.near.writer, p)| >= 4;
  }

  lemma {:induction false} SendStep(c: Cipher, v1: View, a: Side, frame: bytes, n: nat)
    requires v1.near.phase == Writing(frame) && frame != [] && n <= |frame|
    requires 0 <= v1.near.socket == v1.near.writer.socket < |v1.out|
    ensures Exec(c, v1.From(a), if n > 0 then [Send(a, n)] else []) == Some(AfterSend(v1, frame, n).From(a))
  {
    var k := v1.near.socket;
    if n > 0 {
      ExecOne(c, v1.From(a), Send(a, n));
    } else {
      assert SendOn(v1.out[k], []) == v1.out[k] && frame[0..] == frame;
      assert AfterSend(v1, frame, n) == v1;
    }
  }

  lemma {:induction false} FailStep(c: Cipher, v: View, v2: View, a: Side, p: Packet, n: nat)
    requires v.near.phase.Idle? && 0 <= v.near.socket == v.near.writer.socket < |v.out|
    requires n <= |FrameToSend(c, v.near.writer, p)|
    requires v2 == AfterSend(v.(near := AcceptEnd(c, v.near, p)), FrameToSend(c, v.near.writer, p), n)
    ensures Exec(c, v2.From(a), if n < |FrameToSend(c, v.near.writer, p)| then [Send(a, -1)] else [])
         == Some(v2.(near := WroteEnd(c, v.near, p, n)).From(a))
  {
    AcceptStep(c, v, a, p);
    hide FrameToSend, Accept;
    if n < |FrameToSend(c, v.near.writer, p)| {
      ExecOne(c, v2.From(a), Send(a, -1));
    } else {
      assert v2.(near := WroteEnd(c, v.near, p, n)) == v2;
    }
  }

  /** The next answer of a script; a missing one counts as a failure. */
  function Answer(script: seq<int>, i: nat): int {
    if i < |script| then script[i] else 0
  }

  predicate SameAnswers(f: Feed, g: Feed, n: nat) {
    f.inbox == g.inbox && forall i :: 0 <= i < n ==> Answer(f.script, i) == Answer(g.script, i)
  }

  lemma OsReadSame(f: Feed, g: Feed, count: nat, n: nat)
    requires SameAnswers(f, g, n + 1)
    ensures OsRead(f, count).1 == OsRead(g, count).1
    ensures SameAnswers(OsRead(f, count).0, OsRead(g, count).0, n)
  {
    assert Answer(f.script, 0) == Answer(g.script, 0);
    forall i | 0 <= i < n
      ensures Answer(OsRead(f, count).0.script, i) == Answer(OsRead(g, count).0.script, i)
    {
      assert Answer(f.script, i + 1) == Answer(g.script, i + 1);
    }
  }

  lemma ReadBodySame(c: Cipher, r: ReaderState, f: Feed, g: Feed)
    requires |r.partial| >= 4 && SameAnswers(f, g, 1)
    ensures var o, o2 := ReadBody(c, r, f), ReadBody(c, r, g);
            o.reader == o2.reader && o.result == o2.result && o.feed.inbox == o2.feed.inbox
  {
    hide Unseal, FromBe32, OsRead;
    var remaining := FromBe32(r.partial) - (|r.partial| - 4);
    if remaining > 0 {
      OsReadSame(f, g, remaining, 0);
    }
  }

  /** One call of Read uses at most two answers of the operating system. */
  lemma {:induction false} TwoAnswersAreEnough(c: Cipher, r: ReaderState, inbox: bytes, script: seq<int>)
    returns (rc1: int, rc2: int)
    ensures var o, o2 := ReaderRead(c, r, Feed(inbox, script)), ReaderRead(c, r, Feed(inbox, [rc1, rc2]));
            o.reader == o2.reader && o.result == o2.result && o.feed.inbox == o2.feed.inbox
  {
    hide Unseal, FromBe32, OsRead, ReadBody;
    rc1, rc2 := Answer(script, 0), Answer(script, 1);
    var f, g := Feed(inbox, script), Feed(inbox, [rc1, rc2]);
    assert SameAnswers(f, g, 2);
    if r.socket != INVALID_SOCKET && r.queue == [] && |r.partial| < 4 {
      OsReadSame(f, g, 4 - |r.partial|, 1);
      var r' := r.(partial := r.partial + OsRead(f, 4 - |r.partial|).1);
      if |r'.partial| >= 4 {
        ReadBodySame(c, r', OsRead(f, 4 - |r.partial|).0, OsRead(g, 4 - |r.partial|).0);
      }
    } else if r.socket != INVALID_SOCKET && r.queue == [] {
      ReadBodySame(c, r, f, g);
    }
  }

  /** A Read is the step Read, followed by a Close when the socket broke. */
  lemma {:induction false} ReadIsSteps(c: Cipher, s: View, a: Side, script: seq<int>)
    returns (rc1: int, rc2: int)
    requires var e := s.From(a).near;
             e.phase.Idle? && 0 <= e.reader.socket < |s.From(a).inc| && !e.shuttingDown
    ensures var v := s.From(a);
            var k := v.near.reader.socket;
            var o := ReaderRead(c, v.near.reader, Feed(v.inc[k].flight, script));
            var e' := ReadEnd(v.near, o);
            Exec(c, s, [Read(a, rc1, rc2)] + if o.result == Broken then [Close(a)] else [])
            == Some(v.(near := if o.result == Broken then CloseEnd(e') else e',
                       inc := v.inc[k := v.inc[k].(flight := o.feed.inbox)]).From(a))
  {
    var v := s.From(a);
    var k := v.near.reader.socket;
    rc1, rc2 := ReadStep(c, v, a, script);
    hide ReaderRead, Next, Exec;
    var o := ReaderRead(c, v.near.reader, Feed(v.inc[k].flight, script));
    var v1 := v.(near := ReadEnd(v.near, o), inc := v.inc[k := v.inc[k].(flight := o.feed.inbox)]);
    ExecOne(c, s, Read(a, rc1, rc2));
    if o.result == Broken {
      ExecAppend(c, s, [Read(a, rc1, rc2)], [Close(a)]);
      ExecOne(c, v1.From(a), Close(a));
      CloseStep(c, v1, a);
      assert v1.(near := CloseEnd(v1.near)) == v.(near := CloseEnd(ReadEnd(v.near, o)), inc := v1.inc);
    } else {
      assert [Read(a, rc1, rc2)] + [] == [Read(a, rc1, rc2)];
    }
  }

  lemma {:induction false} ReadStep(c: Cipher, v: View, a: Side, script: seq<int>)
    returns (rc1: int, rc2: int)
    requires v.near.phase.Idle? && 0 <= v.near.reader.socket < |v.inc| && !v.near.shuttingDown
    ensures var k := v.near.reader.socket;
            var o := ReaderRead(c, v.near.reader, Feed(v.inc[k].flight, script));
            Next(c, v.From(a), Read(a, rc1, rc2))
            == Some(v.(near := ReadEnd(v.near, o), inc := v.inc[k := v.inc[k].(flight := o.feed.inbox)]).From(a))
  {
    hide ReaderRead, Next;
    var k := v.near.reader.socket;
    rc1, rc2 := TwoAnswersAreEnough(c, v.near.reader, v.inc[k].flight, script);
    ReadTakes(c, v, a, rc1, rc2);
  }

  lemma {:induction false} ReadTakes(c: Cipher, v: View, a: Side, rc1: int, rc2: int)
    requires v.near.phase.Idle? && 0 <= v.near.reader.socket < |v.inc| && !v.near.shuttingDown
    ensures var k := v.near.reader.socket;
            var o := ReaderRead(c, v.near.reader, Feed(v.inc[k].flight, [rc1, rc2]));
            Next(c, v.From(a), Read(a, rc1, rc2))
            == Some(v.(near := ReadEnd(v.near, o), inc := v.inc[k := v.inc[k].(flight := o.feed.inbox)]).From(a))
  {
    hide ReaderRead;
  }

  lemma {:induction false} CloseStep(c: Cipher, v: View, a: Side)
    requires v.near.phase.Idle?
    ensures Next(c, v.From(a), Close(a)) == Some(v.(near := CloseEnd(v.near)).From(a))
  {
  }

  // ---------- Recover ----------

  /** Steps in which side a has no part. */
  predicate NotBy(a: Side, steps: seq<Step>) {
    forall i :: 0 <= i < |steps| ==> steps[i].Connect? || By(steps[i]) != a
  }

  /** What a side has sent of its handshake on connection k. */
  function Sent(v: View, k: nat): (Option<int>, Option<bytes>)
    requires k < |v.out|
  {
    (v.out[k].hello, v.out[k].catchup)
  }

  lemma {:induction false} OtherStepLeavesEnd(c: Cipher, s: View, st: Step, a: Side, k: nat)
    requires Next(c, s, st).Some? && (st.Connect? || By(st) != a) && k < |s.From(a).out|
    ensures var v' := Next(c, s, st).value.From(a);
            v'.near == s.From(a).near && k < |v'.out| && Sent(v', k) == Sent(s.From(a), k)
  {
    DoGrows(c, s.From(By(st)), st);
    if st.Connect? {
      hide Encode, Decode;
    } else {
      DoKeepsMessages(c, s.From(By(st)), st, k);
    }
    hide Do;
  }

  lemma {:induction false} OthersLeaveEnd(c: Cipher, s: View, steps: seq<Step>, a: Side, k: nat)
    requires Exec(c, s, steps).Some? && NotBy(a, steps) && k < |s.From(a).out|
    ensures var v' := Exec(c, s, steps).value.From(a);
            v'.near == s.From(a).near && k < |v'.out| && Sent(v', k) == Sent(s.From(a), k)
    decreases |steps|
  {
    hide Next, Sent;
    if steps != [] {
      OtherStepLeavesEnd(c, s, steps[0], a, k);
      OthersLeaveEnd(c, Next(c, s, steps[0]).value, steps[1..], a, k);
    }
  }

  /** The writer can answer the header and the answer fits a message. */
  predicate Answers(w: WriterState, header: int) {
    RecoverFrom(w, header).Replay? && |Encode(RecoverFrom(w, header).packets)| <= MAX_FRAME
  }

  /** The exchange reaches its second half. */
  predicate Offers(w: WriterState, x: Exchange) {
    x.helloSent && x.header.Some? && Answers(w, x.header.value)
  }

  /** What a side does after its hello; the peer's steps `meanwhile` come before the last one. */
  function AfterHello(a: Side, w: WriterState, x: Exchange, meanwhile: seq<Step>): seq<Step> {
    if !x.helloSent || x.header.None? then [RecoverFails(a)]
    else
      [RecvHello(a), SendCatchup(a)]
      + if !Offers(w, x) then []
        else meanwhile + [if x.catchupSent && x.catchup.Some? then RecvCatchup(a) else RecoverFails(a)]
  }

  /** The header heard is the one the peer sent on connection k. */
  predicate HeardHello(v: View, k: nat, x: Exchange) {
    x.header.Some? ==>
      k < |v.inc| && v.inc[k].hello.Some? && x.header.value == Wrap32(v.inc[k].hello.value)
  }

  predicate HeardCatchup(v: View, k: nat, x: Exchange) {
    x.catchup.Some? ==> k < |v.inc| && v.inc[k].catchup == x.catchup
  }

  /** The endpoint the method Recover leaves. */
  function RecoveredEnd(e: Endpoint, k: nat, x: Exchange): Endpoint {
    match RecoverOutcome(e.writer, x)
    case None => e
    case Some(ps) => ReviveEnd(e, k, ps)
  }

  /** What has been sent once the call's own message is on its way. */
  function Offered(v: View, k: nat, w: WriterState, x: Exchange): (Option<int>, Option<bytes>)
    requires k < |v.out|
  {
    (v.out[k].hello, if RecoverOffer(w, x).Some? then RecoverOffer(w, x) else v.out[k].catchup)
  }

  /** From the hello on: the receive and the reply. */
  lemma {:induction false} HearAndOffer(c: Cipher, s2: View, a: Side, e: Endpoint, k: nat, x: Exchange)
    returns (s3: View)
    requires e.phase.Idle? && x.header.Some? && HeardHello(s2.From(a), k, x)
    requires s2.From(a).near == e.(phase := SentHello(k)) && k < |s2.From(a).out|
    requires x.helloSent
    ensures Exec(c, s2, [RecvHello(a), SendCatchup(a)]) == Some(s3)
    ensures s3.From(a).near == if Answers(e.writer, x.header.value) then e.(phase := SentCatchup(k)) else e
    ensures k < |s3.From(a).out| && Sent(s3.From(a), k) == Offered(s2.From(a), k, e.writer, x)
  {
    hide RecoverFrom, Encode, Decode, Wrap32;
    var v := s2.From(a);
    var v1 := v.(near := e.(phase := GotHello(k, x.header.value)));
    assert Next(c, s2, RecvHello(a)) == Some(v1.From(a));
    s3 := Next(c, v1.From(a), SendCatchup(a)).value;
    assert Next(c, v1.From(a), SendCatchup(a)) == Some(s3);
    ExecOne(c, v1.From(a), SendCatchup(a));
    assert [RecvHello(a), SendCatchup(a)][1..] == [SendCatchup(a)];
  }

  lemma {:induction false} LastMessage(c: Cipher, s4: View, a: Side, e: Endpoint, k: nat, x: Exchange)
    requires e.phase.Idle? && Offers(e.writer, x) && HeardCatchup(s4.From(a), k, x)
    requires s4.From(a).near == e.(phase := SentCatchup(k))
    ensures var end := Next(c, s4, if x.catchupSent && x.catchup.Some? then RecvCatchup(a) else RecoverFails(a));
            && end.Some? && end.value.From(a).near == RecoveredEnd(e, k, x)
            && (k < |s4.From(a).out| ==>
                  k < |end.value.From(a).out| && Sent(end.value.From(a), k) == Sent(s4.From(a), k))
  {
    hide RecoverFrom, Encode, Decode;
  }

  /**
   * Every call of Recover is a run of steps, whichever of its messages fails and whatever the
   * peer does in between: `meanwhile1` while the header is awaited and `meanwhile2` while the
   * catch-up is. The endpoint after the steps is the one after the call, and what the steps sent is
   * what the call sends: the reader's count, and the packets the peer lacks.
   */
  lemma {:induction false} RecoverIsSteps(
    c: Cipher, s: View, a: Side, k: nat, x: Exchange,
    meanwhile1: seq<Step>, s2: View, meanwhile2: seq<Step>, s4: View)
    requires s.From(a).near.phase.Idle?
    requires NotBy(a, meanwhile1) && NotBy(a, meanwhile2)
    requires Exec(c, s, [SendHello(a, k)] + meanwhile1) == Some(s2) && HeardHello(s2.From(a), k, x)
    requires Offers(s.From(a).near.writer, x) ==>
               && Exec(c, s2, [RecvHello(a), SendCatchup(a)] + meanwhile2) == Some(s4)
               && HeardCatchup(s4.From(a), k, x)
    ensures var e := s.From(a).near;
            var end := Exec(c, s, [SendHello(a, k)] + meanwhile1 + AfterHello(a, e.writer, x, meanwhile2));
            && end.Some? && end.value.From(a).near == RecoveredEnd(e, k, x)
            && k < |s.From(a).out| && k < |end.value.From(a).out|
            && end.value.From(a).out[k].hello == Some(e.reader.sequenceNumber)
            && end.value.From(a).out[k].catchup
               == if RecoverOffer(e.writer, x).Some? then RecoverOffer(e.writer, x) else s.From(a).out[k].catchup
  {
    hide Answers, Wrap32, HeardCatchup, NotBy, RecoverFrom, Encode, Decode;
    var e := s.From(a).near;
    HelloSent(c, s, a, k, meanwhile1, s2);
    ExecAppend(c, s, [SendHello(a, k)] + meanwhile1, AfterHello(a, e.writer, x, meanwhile2));
    if !x.helloSent || x.header.None? {
      ExecOne(c, s2, RecoverFails(a));
    } else {
      AfterHearing(c, s2, a, e, k, x, meanwhile2, s4);
    }
  }

  lemma {:induction false} HelloSent(c: Cipher, s: View, a: Side, k: nat, meanwhile: seq<Step>, s2: View)
    requires s.From(a).near.phase.Idle? && NotBy(a, meanwhile)
    requires Exec(c, s, [SendHello(a, k)] + meanwhile) == Some(s2)
    ensures s2.From(a).near == s.From(a).near.(phase := SentHello(k))
    ensures k < |s.From(a).out| && k < |s2.From(a).out|
    ensures Sent(s2.From(a), k) == (Some(s.From(a).near.reader.sequenceNumber), s.From(a).out[k].catchup)
  {
    hide NotBy;
    ExecAppend(c, s, [SendHello(a, k)], meanwhile);
    ExecOne(c, s, SendHello(a, k));
    hide Exec;
    OthersLeaveEnd(c, Next(c, s, SendHello(a, k)).value, meanwhile, a, k);
  }

  lemma {:induction false} AfterHearing(
    c: Cipher, s2: View, a: Side, e: Endpoint, k: nat, x: Exchange, meanwhile: seq<Step>, s4: View)
    requires e.phase.Idle? && x.helloSent && x.header.Some? && HeardHello(s2.From(a), k, x)
    requires s2.From(a).near == e.(phase := SentHello(k)) && k < |s2.From(a).out| && NotBy(a, meanwhile)
    requires Offers(e.writer, x) ==>
               && Exec(c, s2, [RecvHello(a), SendCatchup(a)] + meanwhile) == Some(s4)
               && HeardCatchup(s4.From(a), k, x)
    ensures var end := Exec(c, s2, AfterHello(a, e.writer, x, meanwhile));
            && end.Some? && end.value.From(a).near == RecoveredEnd(e, k, x)
            && k < |end.value.From(a).out| && Sent(end.value.From(a), k) == Offered(s2.From(a), k, e.writer, x)
  {
    hide Exec, Next, NotBy, HeardHello, HeardCatchup, RecoverFrom, Encode, Decode, Sent, Offered;
    var s3 := HearAndOffer(c, s2, a, e, k, x);
    var heard := [RecvHello(a), SendCatchup(a)];
    if Offers(e.writer, x) {
      ExecAppend(c, s2, heard, meanwhile);
      OthersLeaveEnd(c, s3, meanwhile, a, k);
      var last := if x.catchupSent && x.catchup.Some? then RecvCatchup(a) else RecoverFails(a);
      ExecAppend(c, s2, heard + meanwhile, [last]);
      ExecOne(c, s4, last);
      LastMessage(c, s4, a, e, k, x);
      assert heard + (meanwhile + [last]) == heard + meanwhile + [last];
    } else {
      assert heard + [] == heard;
    }
  }
}
