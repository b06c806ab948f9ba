/** The packet format: a flag byte, a header byte and the payload, framed by a big-endian length. */
module Packets {
  import opened Bytes

  datatype Packet = Packet(encrypted: bool, header: byte, payload: bytes)

  const MAX_FRAME: int := 128 * 1024 * 1024

  function Serialize(p: Packet): bytes {
    [if p.encrypted then 1 else 0, p.header] + p.payload
  }

  function Parse(s: bytes): Packet {
    if |s| < 2 then Packet(false, 255, [])
    else Packet(s[0] != 0, s[1], s[2..])
  }

  function Length(p: Packet): nat {
    2 + |p.payload|
  }

  /** What the writer puts on the wire for one serialized packet. */
  function FrameOf(s: bytes): bytes {
    Be32(Truncate32(|s|)) + s
  }

  /** The byte stream of a sequence of serialized packets. */
  function FrameCat(hs: seq<bytes>): bytes {
    if hs == [] then [] else FrameOf(hs[0]) + FrameCat(hs[1..])
  }

  lemma ParseSerialize(p: Packet)
    ensures Parse(Serialize(p)) == p
    ensures |Serialize(p)| == Length(p)
  {
    assert Serialize(p)[2..] == p.payload;
  }

  /** A byte string is some packet's serialization exactly when parsing it loses nothing. */
  lemma SerializeParse(s: bytes)
    ensures Serialize(Parse(s)) == s <==> |s| >= 2 && s[0] <= 1
  {
    if |s| >= 2 {
      assert s == [s[0], s[1]] + s[2..];
      assert Serialize(Parse(s))[0] == if s[0] != 0 then 1 else 0;
    }
  }

  /** The length field names the packet's length exactly when the 32-bit cast loses nothing. */
  lemma FrameLengthField(s: bytes)
    ensures |FrameOf(s)| == 4 + |s| && FrameOf(s)[4..] == s
    ensures FromBe32(FrameOf(s)) == Truncate32(|s|)
    ensures FromBe32(FrameOf(s)) == |s| <==> |s| < TWO_TO_THE_32
  {
    var n := Truncate32(|s|);
    Be32RoundTrip(n);
    assert FrameOf(s)[..4] == Be32(n);
    assert FromBe32(FrameOf(s)) == FromBe32(FrameOf(s)[..4]);
  }

  /** The bytes of a frame: its length, most significant byte first, a flag, a header, the payload. */
  lemma {:induction false} FrameBytes(p: Packet)
    requires Length(p) < TWO_TO_THE_32
    ensures var b, n := FrameOf(Serialize(p)), Length(p);
            && |b| == 6 + |p.payload|
            && b[0] as int * 0x100_0000 + b[1] as int * 0x1_0000 + b[2] as int * 0x100 + b[3] as int == n
            && b[4] == (if p.encrypted then 1 else 0) && b[5] == p.header
            && b[6..] == p.payload
  {
    ParseSerialize(p);
    var s := Serialize(p);
    var b := FrameOf(s);
    FrameLengthField(s);
    Be32RoundTrip(|s|);
    assert b[4..] == s && b[4] == s[0] && b[5] == s[1];
    assert b[6..] == s[2..];
  }

  lemma {:induction false} FrameCatAppend(a: seq<bytes>, b: seq<bytes>)
    ensures FrameCat(a + b) == FrameCat(a) + FrameCat(b)
  {
    if a == [] {
      assert a + b == b;
    } else {
      assert (a + b)[1..] == a[1..] + b;
      FrameCatAppend(a[1..], b);
      assert FrameOf(a[0]) + (FrameCat(a[1..]) + FrameCat(b)) == FrameCat(a) + FrameCat(b);
    }
  }

  lemma {:induction false} FrameCatSnoc(a: seq<bytes>, s: bytes)
    ensures FrameCat(a + [s]) == FrameCat(a) + FrameOf(s)
  {
    FrameCatAppend(a, [s]);
    assert [s][1..] == [];
    assert FrameOf(s) + [] == FrameOf(s);
  }

  /** The stream of the packets from `base` on, split at packet m. */
  lemma {:induction false} StreamSplit(h: seq<bytes>, base: nat, m: nat)
    requires base <= m <= |h|
    ensures FrameCat(h[base..]) == FrameCat(h[base..m]) + FrameCat(h[m..])
    ensures m < |h| ==> FrameCat(h[m..]) == FrameOf(h[m]) + FrameCat(h[m + 1..])
    ensures m < |h| ==> FrameCat(h[base..m + 1]) == FrameCat(h[base..m]) + FrameOf(h[m])
  {
    FrameCatAppend(h[base..m], h[m..]);
    assert h[base..m] + h[m..] == h[base..];
    if m < |h| {
      assert h[m..][1..] == h[m + 1..];
      assert h[base..m + 1] == h[base..m] + [h[m]];
      FrameCatSnoc(h[base..m], h[m]);
    }
  }

  /** Any start of a stream is whole frames and then at most one cut short. */
  lemma {:induction false} FramesAndPart(hs: seq<bytes>, sent: bytes) returns (i: nat, part: bytes)
    requires sent <= FrameCat(hs)
    ensures i <= |hs| && sent == FrameCat(hs[..i]) + part
    ensures part != [] ==> i < |hs| && part <= FrameOf(hs[i]) && |part| < |FrameOf(hs[i])|
    decreases |hs|
  {
    hide FrameOf;
    if hs == [] || |sent| < |FrameOf(hs[0])| {
      i, part := 0, sent;
      if hs != [] {
        PrefixOfFirst(sent, FrameOf(hs[0]), FrameCat(hs[1..]));
      }
    } else {
      var f := FrameOf(hs[0]);
      var rest := AfterFirst(f, sent, FrameCat(hs[1..]));
      i, part := FramesAndPart(hs[1..], rest);
      i := i + 1;
      FrameCatCons(hs, i);
      assert sent == f + (FrameCat(hs[1..][..i - 1]) + part);
    }
  }

  lemma FrameCatCons(hs: seq<bytes>, i: nat)
    requires 0 < i <= |hs|
    ensures FrameCat(hs[..i]) == FrameOf(hs[0]) + FrameCat(hs[1..][..i - 1])
  {
    assert hs[..i][1..] == hs[1..][..i - 1];
  }

  lemma AfterFirst(f: bytes, sent: bytes, more: bytes) returns (rest: bytes)
    requires sent <= f + more && |f| <= |sent|
    ensures sent == f + rest && rest <= more
  {
    rest := sent[|f|..];
    assert sent[..|f|] == f;
    PrefixCancel(f, rest, more);
  }

  /** Each further packet makes the stream longer by its frame. */
  lemma {:induction false} StreamGrows(h: seq<bytes>, base: nat, i: nat, j: nat)
    requires base <= i < j <= |h|
    ensures |FrameCat(h[base..i])| + |FrameOf(h[i])| <= |FrameCat(h[base..j])|
  {
    var hs := h[..j];
    StreamSplit(hs, base, i);
    assert hs[base..] == h[base..j] && hs[base..i] == h[base..i] && hs[i] == h[i];
  }

  lemma PrefixCancel(a: bytes, b: bytes, x: bytes)
    requires a + b <= a + x
    ensures b <= x
  {
    assert (a + b)[|a|..] == b;
    assert (a + x)[..|a| + |b|][|a|..] == x[..|b|];
  }

  lemma PrefixOfFirst(b: bytes, x: bytes, y: bytes)
    requires b <= x + y && |b| <= |x|
    ensures b <= x
  {
    assert (x + y)[..|b|] == x[..|b|];
  }

  /** Taking more of a stream extends what follows the part already accounted for. */
  lemma TakeMore(sent: bytes, got: nat, data: bytes, done: bytes, partial: bytes, more: bytes)
    requires got + |data| <= |sent| && data == sent[got..got + |data|]
    requires sent[..got] == done + partial && sent <= done + more
    ensures sent[..got + |data|] == done + (partial + data)
    ensures partial + data <= more
  {
    assert sent[..got + |data|] == sent[..got] + data;
    assert done + partial + data == done + (partial + data);
    PrefixCancel(done, partial + data, more);
  }
}
