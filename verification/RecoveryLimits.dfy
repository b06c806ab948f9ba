/**
 * The theorems about runs assume packets short enough for the 32-bit length field of a frame.
 * The assumption is needed: every longer packet, sent in the clear, spoils a run of three steps.
 */
module RecoveryLimits {
  import opened Bytes
  import opened Packets
  import opened Nonces
  import opened SocketIo
  import opened BackedWriters
  import opened BackedReaders
  import opened Recovery
  import opened RecoverySafety
  import opened RecoveryResync
  import opened RecoveryMethods

  /** The build without libsodium leaves payloads as they are. */
  const IN_THE_CLEAR: Cipher := Cipher((n, plain) => plain, (n, box) => Some(box))

  lemma InTheClearIsSound()
    ensures Sound(IN_THE_CLEAR)
  {
  }

  /** What the client's first packet is on the wire. */
  function FirstSealed(p: Packet): bytes {
    Serialize(Packet(true, p.header, p.payload))
  }

  /** The client writes one packet and the server reads twice, as much as it asks for. */
  function OnePacket(p: Packet): seq<Step> {
    [StartWrite(Client, p), Send(Client, 4 + |FirstSealed(p)|),
     Read(Server, 4, |FirstSealed(p)| % TWO_TO_THE_32)]
  }

  /** The first n bytes of a serialized packet are not that packet. */
  lemma {:induction false} CutShort(p: Packet, n: nat, nonce: nat)
    requires 0 < n < |FirstSealed(p)| && |FirstSealed(p)| > 2
    ensures var q := Unseal(IN_THE_CLEAR, nonce, FirstSealed(p)[..n]).1;
            q.Some? && q.value != Plain(p)
  {
    var s := FirstSealed(p);
    ParseSerialize(Packet(true, p.header, p.payload));
    if n >= 2 {
      assert s[..n][2..] == p.payload[..n - 2];
    }
  }

  /** The client's endpoint and the stream after its write. */
  function Written(p: Packet): View {
    var s := Initial();
    s.(near := AcceptEnd(IN_THE_CLEAR, s.near, p).(phase := Idle),
       out := [SendOn(FIRST_CHANNEL, FrameOf(FirstSealed(p)))])
  }

  lemma {:induction false} WriteRuns(p: Packet)
    ensures Exec(IN_THE_CLEAR, Initial(), [StartWrite(Client, p), Send(Client, 4 + |FirstSealed(p)|)])
         == Some(Written(p))
  {
    var c, s := IN_THE_CLEAR, Initial();
    var frame := FirstFrame(p);
    hide FrameToSend, FrameOf, FirstSealed, Accept, NonceAt;
    WriteIsSteps(c, s, Client, p, |frame|);
    assert frame[..|frame|] == frame;
    assert [Send(Client, |frame|)] + [] == [Send(Client, |frame|)];
    assert WriteSteps(Client, p, |frame|, |frame|) == [StartWrite(Client, p), Send(Client, |frame|)];
    assert s.out[0 := SendOn(FIRST_CHANNEL, frame)] == [SendOn(FIRST_CHANNEL, frame)];
  }

  lemma {:induction false} FirstFrame(p: Packet) returns (frame: bytes)
    ensures frame == FrameToSend(IN_THE_CLEAR, Initial().near.writer, p) == FrameOf(FirstSealed(p))
    ensures |frame| == 4 + |FirstSealed(p)|
  {
    frame := FrameOf(FirstSealed(p));
  }

  /**
   * Whatever the packet, from 2^32 bytes on: the server throws with nothing delivered, or it
   * delivers what the client never wrote.
   */
  lemma {:induction false} LengthBoundIsSharp(p: Packet)
    requires |FirstSealed(p)| >= TWO_TO_THE_32
    ensures var end := Exec(IN_THE_CLEAR, Initial(), OnePacket(p));
            var n := |FirstSealed(p)| % TWO_TO_THE_32;
            && end.Some?
            && end.value.near.accepted == [p]
            && if n == 0 || n > MAX_FRAME then end.value.far.threw && end.value.far.delivered == []
               else |end.value.far.delivered| == 1 && !(end.value.far.delivered <= PlainAll([p]))
  {
    var c, s, n := IN_THE_CLEAR, FirstSealed(p), |FirstSealed(p)| % TWO_TO_THE_32;
    var v := Written(p).From(Server);
    var write := [StartWrite(Client, p), Send(Client, 4 + |s|)];
    var o := ReaderRead(c, v.near.reader, Feed(v.inc[0].flight, [4, n]));
    assert OnePacket(p) == write + [Read(Server, 4, n)];
    FirstRead(p);
    WriteRuns(p);
    hide FirstSealed, ReaderRead, Unseal, FrameOf, Accept, NonceAt, Plain, PlainAll;
    hide Exec, Next, Written, Initial, OnePacket;
    ReadTakes(c, v, Server, 4, n);
    ExecSnoc(c, Initial(), write, Written(p), Read(Server, 4, n));
    assert ReadEnd(v.near, o).delivered == if o.result.Delivered? then [o.result.packet] else [];
  }

  lemma {:induction false} ExecSnoc(c: Cipher, s: View, steps: seq<Step>, s': View, st: Step)
    requires Exec(c, s, steps) == Some(s')
    ensures Exec(c, s, steps + [st]) == Next(c, s', st)
  {
    hide Exec, Next;
    ExecAppend(c, s, steps, [st]);
    ExecOne(c, s', st);
  }

  /** What the server's read makes of the stream. */
  lemma {:induction false} FirstRead(p: Packet)
    requires |FirstSealed(p)| >= TWO_TO_THE_32
    ensures var v, n := Written(p).From(Server), |FirstSealed(p)| % TWO_TO_THE_32;
            var o := ReaderRead(IN_THE_CLEAR, v.near.reader, Feed(v.inc[0].flight, [4, n]));
            && v.near.reader.socket == 0 < |v.inc| && v.near.phase.Idle? && !v.near.shuttingDown
            && v.far.accepted == [p] && v.near.delivered == []
            && if n == 0 || n > MAX_FRAME then o.result == Thrown
               else o.result.Delivered? && !([o.result.packet] <= PlainAll([p]))
  {
    var v, s, n := Written(p).From(Server), FirstSealed(p), |FirstSealed(p)| % TWO_TO_THE_32;
    LongFrameIsMisread(IN_THE_CLEAR, v.near.reader, s, []);
    if 0 < n <= MAX_FRAME {
      CutShort(p, n, v.near.reader.nonce);
    }
    hide FirstSealed, ReaderRead, Unseal, FrameOf, Accept, NonceAt, Plain;
    assert v.inc[0].flight == FrameOf(s) + [];
    var o := ReaderRead(IN_THE_CLEAR, v.near.reader, Feed(v.inc[0].flight, [4, n]));
    if o.result.Delivered? {
      WrongIsNoPrefix(p, o.result.packet);
    }
  }

  lemma {:induction false} WrongIsNoPrefix(p: Packet, q: Packet)
    ensures q != Plain(p) ==> !([q] <= PlainAll([p]))
  {
    assert [p][..0] == [];
    assert PlainAll([p]) == [Plain(p)] && [q][0] == q;
  }
}
