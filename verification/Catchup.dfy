/**
 * The wire size of a catch-up message: `repeated bytes buffer = 1` in the Protocol Buffers
 * encoding, each entry a tag byte, a varint length and the bytes.
 */
module Catchup {
  import opened Bytes
  import opened Packets
  import opened Nonces
  import opened BackedWriters

  const TAG: byte := 0x0A

  function Varint(n: nat): bytes {
    if n < 128 then [n] else [n % 128 + 128] + Varint(n / 128)
  }

  function Encode(entries: seq<bytes>): bytes {
    if entries == [] then []
    else [TAG] + Varint(|entries[0]|) + entries[0] + Encode(entries[1..])
  }

  function TotalLength(entries: seq<bytes>): nat {
    if entries == [] then 0 else |entries[0]| + TotalLength(entries[1..])
  }

  /** The decoded number and the bytes after it, or None for a varint cut short. */
  function ReadVarint(b: bytes): Option<(nat, bytes)> {
    if b == [] then None
    else if b[0] < 128 then Some((b[0], b[1..]))
    else
      match ReadVarint(b[1..])
      case None => None
      case Some((n, rest)) => Some((b[0] as int - 128 + 128 * n, rest))
  }

  lemma {:induction false} VarintRoundTrip(n: nat, rest: bytes)
    ensures ReadVarint(Varint(n) + rest) == Some((n, rest))
  {
    var b := Varint(n) + rest;
    if n < 128 {
      assert b[1..] == rest;
    } else {
      VarintRoundTrip(n / 128, rest);
      assert b[1..] == Varint(n / 128) + rest;
      assert b[0] as int - 128 + 128 * (n / 128) == n;
    }
  }

  lemma {:induction false} ReadVarintShrinks(b: bytes)
    ensures ReadVarint(b).Some? ==> |ReadVarint(b).value.1| < |b|
  {
    if b != [] && b[0] >= 128 {
      ReadVarintShrinks(b[1..]);
    }
  }

  /** Decodes a message made of field 1 only, as a peer of this program sends it. */
  function Decode(b: bytes): Option<seq<bytes>>
    decreases |b|
  {
    if b == [] then Some([])
    else if b[0] != TAG then None
    else
      match ReadVarint(b[1..])
      case None => None
      case Some((n, rest)) =>
        ReadVarintShrinks(b[1..]);
        if |rest| < n then None
        else
          match Decode(rest[n..])
          case None => None
          case Some(more) => Some([rest[..n]] + more)
  }

  /**
   * The first entry on the wire: field 1 of wire type 2, its length in groups of seven bits, the
   * lowest first and all but the last marked, and its bytes.
   */
  lemma {:induction false} WireFormat(e: bytes, rest: seq<bytes>)
    ensures |e| < 0x80 ==> Encode([e] + rest) == [0x0A, |e|] + e + Encode(rest)
    ensures 0x80 <= |e| < 0x4000 ==>
              Encode([e] + rest) == [0x0A, |e| % 0x80 + 0x80, |e| / 0x80] + e + Encode(rest)
  {
    assert ([e] + rest)[1..] == rest;
    if 0x80 <= |e| < 0x4000 {
      assert Varint(|e|) == [|e| % 0x80 + 0x80] + [|e| / 0x80];
    }
  }

  /** The peer reads back exactly the entries sent. */
  lemma {:induction false} CatchupRoundTrip(entries: seq<bytes>)
    ensures Decode(Encode(entries)) == Some(entries)
  {
    if entries != [] {
      var e, tail := entries[0], Encode(entries[1..]);
      var b := Encode(entries);
      assert b == [TAG] + (Varint(|e|) + (e + tail));
      assert b[1..] == Varint(|e|) + (e + tail);
      VarintRoundTrip(|e|, e + tail);
      assert (e + tail)[..|e|] == e && (e + tail)[|e|..] == tail;
      CatchupRoundTrip(entries[1..]);
      assert [e] + entries[1..] == entries;
    }
  }

  /** A length of at least two takes at most one varint byte fewer than itself. */
  lemma {:induction false} VarintIsShort(n: nat)
    ensures |Varint(n)| >= 1
    ensures n >= 2 ==> |Varint(n)| <= n - 1
  {
    if n >= 128 {
      VarintIsShort(n / 128);
    }
  }

  /** The overhead never exceeds the payload, entry by entry. */
  lemma {:induction false} EncodeAtMostDoubles(entries: seq<bytes>)
    requires forall i :: 0 <= i < |entries| ==> |entries[i]| >= 2
    ensures |Encode(entries)| <= 2 * TotalLength(entries)
  {
    if entries != [] {
      VarintIsShort(|entries[0]|);
      EncodeAtMostDoubles(entries[1..]);
    }
  }

  lemma {:induction false} TotalLengthSnoc(entries: seq<bytes>, e: bytes)
    ensures TotalLength(entries + [e]) == TotalLength(entries) + |e|
  {
    if entries == [] {
      assert entries + [e] == [e];
      assert [e][1..] == [];
    } else {
      assert (entries + [e])[1..] == entries[1..] + [e];
      TotalLengthSnoc(entries[1..], e);
    }
  }

  lemma {:induction false} TotalLengthReversed(ps: seq<Packet>)
    ensures TotalLength(Reversed(ps)) == SumLen(ps)
    ensures forall i :: 0 <= i < |ps| ==> |Reversed(ps)[i]| >= 2
  {
    if ps != [] {
      assert Reversed(ps) == Reversed(ps[1..]) + [Serialize(ps[0])];
      TotalLengthSnoc(Reversed(ps[1..]), Serialize(ps[0]));
      TotalLengthReversed(ps[1..]);
      ParseSerialize(ps[0]);
    }
  }

  /** Every catch-up message Recover can build is within the 128 MiB message limit. */
  lemma {:induction false} CatchupFits(c: Cipher, msb: byte, w: WriterState, accepted: seq<Packet>, n: int)
    requires WriterInv(c, msb, w, accepted)
    ensures RecoverFrom(w, n).Replay? ==> |Encode(RecoverFrom(w, n).packets)| <= MAX_FRAME
  {
    if RecoverFrom(w, n).Replay? {
      var missing := w.sequenceNumber - n;
      TotalLengthReversed(w.backup[..missing]);
      EncodeAtMostDoubles(RecoverFrom(w, n).packets);
      SumLenPrefix(w.backup, missing, |w.backup|);
      assert w.backup[..|w.backup|] == w.backup;
    }
  }
}
