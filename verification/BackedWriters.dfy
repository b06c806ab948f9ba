/**
 * The sending half of a connection: it seals packets, keeps the newest 64 MiB of them for
 * replay, and writes frames to a socket that can fail at any byte.
 */
module BackedWriters {
  import opened Bytes
  import opened Packets
  import opened Nonces
  import opened SocketIo

  const MAX_BACKUP_BYTES: int := 64 * 1024 * 1024

  /** The writer's fields as a value. The backlog is newest first. */
  datatype WriterState = WriterState(
    socket: SocketHandle,
    backup: seq<Packet>,
    backupSize: int,
    sequenceNumber: int,
    nonce: nat)

  datatype WriteStatus = Skipped | Success | WroteWithFailure

  /** The packets to replay, serialized and oldest first, or the exception. */
  datatype Replay = Replay(packets: seq<bytes>) | Refused

  // ---------- the backlog ----------

  function SumLen(ps: seq<Packet>): nat {
    if ps == [] then 0 else Length(ps[0]) + SumLen(ps[1..])
  }

  lemma {:induction false} SumLenSnoc(ps: seq<Packet>, p: Packet)
    ensures SumLen(ps + [p]) == SumLen(ps) + Length(p)
  {
    if ps == [] {
      assert ps + [p] == [p];
      assert [p][1..] == [];
    } else {
      assert (ps + [p])[1..] == ps[1..] + [p];
      SumLenSnoc(ps[1..], p);
    }
  }

  lemma {:induction false} SumLenPrefix(ps: seq<Packet>, i: nat, j: nat)
    requires i <= j <= |ps|
    ensures SumLen(ps[..i]) + 2 * (j - i) <= SumLen(ps[..j])
    decreases j
  {
    if i < j {
      SumLenPrefix(ps, i, j - 1);
      assert ps[..j] == ps[..j - 1] + [ps[j - 1]];
      SumLenSnoc(ps[..j - 1], ps[j - 1]);
    }
  }

  /** The trim loop: drop the oldest while the total is over the cap. */
  function Trim(backup: seq<Packet>, size: int): (seq<Packet>, int)
    decreases |backup|
  {
    if size > MAX_BACKUP_BYTES && backup != [] then
      Trim(backup[..|backup| - 1], size - Length(backup[|backup| - 1]))
    else (backup, size)
  }

  /** `backup` is the longest prefix of `full` (newest first) that fits the cap. */
  ghost predicate LongestFitting(full: seq<Packet>, backup: seq<Packet>) {
    && |backup| <= |full|
    && backup == full[..|backup|]
    && SumLen(backup) <= MAX_BACKUP_BYTES
    && (|backup| < |full| ==> SumLen(full[..|backup| + 1]) > MAX_BACKUP_BYTES)
  }

  lemma {:induction false} LongestFittingIsLongest(full: seq<Packet>, backup: seq<Packet>, m: nat)
    requires LongestFitting(full, backup) && m <= |full|
    ensures SumLen(full[..m]) <= MAX_BACKUP_BYTES <==> m <= |backup|
  {
    if m <= |backup| {
      SumLenPrefix(full, m, |backup|);
    } else {
      SumLenPrefix(full, |backup| + 1, m);
    }
  }

  lemma {:induction false} TrimFits(full: seq<Packet>, n: nat)
    requires n <= |full|
    requires n < |full| ==> SumLen(full[..n + 1]) > MAX_BACKUP_BYTES
    ensures var (b, size) := Trim(full[..n], SumLen(full[..n]));
            LongestFitting(full, b) && size == SumLen(b)
    decreases n
  {
    if n > 0 {
      assert full[..n] == full[..n - 1] + [full[n - 1]];
      SumLenSnoc(full[..n - 1], full[n - 1]);
      assert full[..n][..n - 1] == full[..n - 1];
      if SumLen(full[..n]) > MAX_BACKUP_BYTES {
        TrimFits(full, n - 1);
      }
    }
  }

  /** Pushing a packet and trimming keeps the backlog the longest fitting part of the history. */
  lemma {:induction false} PushTrimKeepsLongest(full: seq<Packet>, backup: seq<Packet>, p: Packet)
    requires LongestFitting(full, backup)
    ensures var (b, size) := Trim([p] + backup, SumLen(backup) + Length(p));
            LongestFitting([p] + full, b) && size == SumLen(b)
  {
    var full', n := [p] + full, |backup| + 1;
    assert full'[..n] == [p] + backup;
    assert ([p] + backup)[1..] == backup;
    if n < |full'| {
      assert full'[..n + 1] == [p] + full[..n];
      assert ([p] + full[..n])[1..] == full[..n];
    }
    TrimFits(full', n);
  }

  // ---------- accepting a packet ----------

  /** Packet number i of a direction as it is stored and sent. */
  function Sealed(c: Cipher, msb: byte, i: nat, p: Packet): Packet {
    Packet(true, p.header, c.seal(NonceAt(msb, i + 1), p.payload))
  }

  /** Everything a writer ever accepted, serialized, oldest first. */
  function History(c: Cipher, msb: byte, accepted: seq<Packet>): (h: seq<bytes>)
    ensures |h| == |accepted|
  {
    if accepted == [] then []
    else
      var i := |accepted| - 1;
      History(c, msb, accepted[..i]) + [Serialize(Sealed(c, msb, i, accepted[i]))]
  }

  /** The same packets as they sit in the backlog, newest first. */
  function Newest(c: Cipher, msb: byte, accepted: seq<Packet>): (h: seq<Packet>)
    ensures |h| == |accepted|
  {
    if accepted == [] then []
    else
      var i := |accepted| - 1;
      [Sealed(c, msb, i, accepted[i])] + Newest(c, msb, accepted[..i])
  }

  lemma HistoryAppend(c: Cipher, msb: byte, accepted: seq<Packet>, p: Packet)
    ensures History(c, msb, accepted + [p])
            == History(c, msb, accepted) + [Serialize(Sealed(c, msb, |accepted|, p))]
    ensures Newest(c, msb, accepted + [p]) == [Sealed(c, msb, |accepted|, p)] + Newest(c, msb, accepted)
  {
    assert (accepted + [p])[..|accepted|] == accepted;
  }

  lemma {:induction false} HistoryAt(c: Cipher, msb: byte, accepted: seq<Packet>, i: nat)
    requires i < |accepted|
    ensures History(c, msb, accepted)[i] == Serialize(Sealed(c, msb, i, accepted[i]))
    ensures Newest(c, msb, accepted)[|accepted| - 1 - i] == Sealed(c, msb, i, accepted[i])
    decreases |accepted|
  {
    if i < |accepted| - 1 {
      HistoryAt(c, msb, accepted[..|accepted| - 1], i);
    }
  }

  lemma {:induction false} HistoryPrefix(c: Cipher, msb: byte, accepted: seq<Packet>, i: nat)
    requires i <= |accepted|
    ensures History(c, msb, accepted[..i]) == History(c, msb, accepted)[..i]
    decreases |accepted|
  {
    if i < |accepted| {
      HistoryPrefix(c, msb, accepted[..|accepted| - 1], i);
      assert accepted[..|accepted| - 1][..i] == accepted[..i];
    } else {
      assert accepted[..i] == accepted;
    }
  }

  /** The locked part of Write: seal, push, count, trim. */
  function Accept(c: Cipher, w: WriterState, p: Packet): WriterState {
    var nonce := NextNonce(w.nonce);
    var sealed := Packet(true, p.header, c.seal(nonce, p.payload));
    var (backup, size) := Trim([sealed] + w.backup, w.backupSize + Length(sealed));
    WriterState(w.socket, backup, size, w.sequenceNumber + 1, nonce)
  }

  /** The bytes Write puts on the socket after Accept. */
  function FrameToSend(c: Cipher, w: WriterState, p: Packet): bytes {
    FrameOf(Serialize(Packet(true, p.header, c.seal(NextNonce(w.nonce), p.payload))))
  }

  /** Sequence number, nonce and backlog all agree with the list of accepted packets. */
  ghost predicate WriterInv(c: Cipher, msb: byte, w: WriterState, accepted: seq<Packet>) {
    && w.sequenceNumber == |accepted|
    && w.nonce == NonceAt(msb, |accepted|)
    && w.backupSize == SumLen(w.backup)
    && LongestFitting(Newest(c, msb, accepted), w.backup)
  }

  lemma {:induction false} AcceptKeepsWriterInv(c: Cipher, msb: byte, w: WriterState, accepted: seq<Packet>, p: Packet)
    requires WriterInv(c, msb, w, accepted)
    ensures WriterInv(c, msb, Accept(c, w, p), accepted + [p])
    ensures FrameToSend(c, w, p) == FrameOf(History(c, msb, accepted + [p])[|accepted|])
  {
    HistoryAppend(c, msb, accepted, p);
    assert NonceAt(msb, |accepted| + 1) == NextNonce(w.nonce);
    PushTrimKeepsLongest(Newest(c, msb, accepted), w.backup, Sealed(c, msb, |accepted|, p));
  }

  // ---------- replay ----------

  function Reversed(ps: seq<Packet>): (r: seq<bytes>)
    ensures |r| == |ps|
    ensures forall i :: 0 <= i < |ps| ==> r[i] == Serialize(ps[|ps| - 1 - i])
  {
    seq(|ps|, i requires 0 <= i < |ps| => Serialize(ps[|ps| - 1 - i]))
  }

  /** What Recover answers to a peer that says it has accepted n packets. */
  function RecoverFrom(w: WriterState, n: int): Replay {
    if w.socket != INVALID_SOCKET then Refused
    else
      var missing := w.sequenceNumber - n;
      if 0 <= missing <= |w.backup| then Replay(Reversed(w.backup[..missing]))
      else Refused
  }

  /**
   * Recover replays the history from packet n on, oldest first, exactly when the socket is down
   * and packet n and everything after it is still in the backlog.
   */
  lemma {:induction false} RecoverIsHistorySuffix(c: Cipher, msb: byte, w: WriterState, accepted: seq<Packet>, n: int)
    requires WriterInv(c, msb, w, accepted)
    ensures RecoverFrom(w, n).Replay?
            <==> w.socket == INVALID_SOCKET && |accepted| - |w.backup| <= n <= |accepted|
    ensures RecoverFrom(w, n).Replay? ==> RecoverFrom(w, n).packets == History(c, msb, accepted)[n..]
  {
    if RecoverFrom(w, n).Replay? {
      var out, h := RecoverFrom(w, n).packets, History(c, msb, accepted);
      var missing := |accepted| - n;
      forall j | 0 <= j < missing
        ensures out[j] == h[n..][j]
      {
        HistoryAt(c, msb, accepted, n + j);
      }
      assert out == h[n..];
    }
  }

  /** Nothing older than 2^25 packets can be in the backlog: each takes at least two bytes. */
  lemma {:induction false} BacklogBound(full: seq<Packet>, backup: seq<Packet>)
    requires LongestFitting(full, backup)
    ensures |backup| <= 0x200_0000
  {
    SumLenPrefix(backup, 0, |backup|);
    assert backup[..|backup|] == backup;
  }

  /**
   * The sequence header is an int32. Whatever the peer's true 64-bit count r, as long as it is
   * not ahead of the writer, the answer to the wrapped header is the answer to r: the missing
   * suffix when the header is exact, and a refusal when it wrapped.
   */
  lemma {:induction false} WrappedHeaderFailsClosed(c: Cipher, msb: byte, w: WriterState, accepted: seq<Packet>, r: nat)
    requires WriterInv(c, msb, w, accepted) && r <= |accepted|
    ensures RecoverFrom(w, Wrap32(r)).Replay?
            <==> RecoverFrom(w, r).Replay? && r < TWO_TO_THE_31
    ensures RecoverFrom(w, Wrap32(r)).Replay? ==> RecoverFrom(w, Wrap32(r)) == RecoverFrom(w, r)
  {
    Wrap32FallsShort(r);
    BacklogBound(Newest(c, msb, accepted), w.backup);
  }

  class BackedWriter {
    const io: SocketHandler
    const crypto: CryptoHandler
    const msb: byte
    var socket: SocketHandle
    var backup: seq<Packet>
    var backupSize: int
    var sequenceNumber: int
    ghost var accepted: seq<Packet>

    ghost function State(): WriterState
      reads this, crypto, crypto.nonce
      requires crypto.Valid()
    {
      WriterState(socket, backup, backupSize, sequenceNumber, crypto.Nonce())
    }

    ghost predicate Valid()
      reads this, crypto, crypto.nonce
    {
      crypto.Valid() && WriterInv(crypto.cipher, msb, State(), accepted)
    }

    constructor (io: SocketHandler, cipher: Cipher, msb: byte, socket: SocketHandle)
      ensures Valid() && fresh(crypto) && fresh(crypto.nonce)
      ensures this.io == io && crypto.cipher == cipher && this.msb == msb
      ensures this.socket == socket && accepted == []
    {
      this.io := io;
      this.msb := msb;
      this.socket := socket;
      crypto := new CryptoHandler(cipher, msb);
      backup, backupSize, sequenceNumber, accepted := [], 0, 0, [];
    }

    /**
     * A packet is skipped (no socket, nothing changes) or accepted exactly once; what the
     * socket then carries is the whole frame on success and a part of it on failure.
     */
    method Write(packet: Packet) returns (status: WriteStatus, ghost n: nat)
      requires Valid()
      modifies this`backup, this`backupSize, this`sequenceNumber, this`accepted, crypto.nonce, io
      ensures Valid()
      ensures status == Skipped <==> old(socket) == INVALID_SOCKET
      ensures status == Skipped ==> State() == old(State()) && accepted == old(accepted) && unchanged(io)
      ensures status != Skipped ==> accepted == old(accepted) + [packet]
                                    && State() == Accept(crypto.cipher, old(State()), packet)
      ensures status != Skipped ==>
                var frame := FrameToSend(crypto.cipher, old(State()), packet);
                && n <= |frame| && (status == Success <==> n == |frame|)
                && n == Min(|frame|, TakenBeforeFailure(old(io.script)))
                && io.Sent(socket) == old(io.Sent(socket)) + frame[..n]
      ensures io.OnlySentChanged(socket, old(io.sent)) && io.inbox == old(io.inbox) && io.closed == old(io.closed)
    {
      if socket == INVALID_SOCKET {
        return Skipped, 0;
      }
      hide Accept, FrameToSend, WriterInv, Value, Serialize, Be32;
      ghost var frame := FrameToSend(crypto.cipher, State(), packet);
      var sealed := Push(packet);
      assert FrameOf(Serialize(sealed)) == frame;
      status, n := SendFrame(FrameOf(Serialize(sealed)));
    }

    /** The part of Write that runs under the recover mutex. */
    method Push(packet: Packet) returns (sealed: Packet)
      requires Valid()
      modifies this`backup, this`backupSize, this`sequenceNumber, this`accepted, crypto.nonce
      ensures Valid() && accepted == old(accepted) + [packet]
      ensures State() == Accept(crypto.cipher, old(State()), packet)
      ensures FrameOf(Serialize(sealed)) == FrameToSend(crypto.cipher, old(State()), packet)
    {
      hide Value, NextNonce, LongestFitting, Newest, SumLen, Serialize, FrameOf;
      ghost var was := State();
      AcceptKeepsWriterInv(crypto.cipher, msb, was, accepted, packet);
      var box := crypto.Encrypt(packet.payload);
      sealed := Packet(true, packet.header, box);
      backup := [sealed] + backup;
      backupSize := backupSize + Length(sealed);
      sequenceNumber := sequenceNumber + 1;
      accepted := accepted + [packet];
      DropOldest();
    }

    method DropOldest()
      modifies this`backup, this`backupSize
      ensures (backup, backupSize) == Trim(old(backup), old(backupSize))
    {
      while backupSize > MAX_BACKUP_BYTES && backup != []
        invariant Trim(backup, backupSize) == Trim(old(backup), old(backupSize))
        decreases |backup|
      {
        backupSize := backupSize - Length(backup[|backup| - 1]);
        backup := backup[..|backup| - 1];
      }
    }

    /**
     * The write loop: n bytes of the frame reach the socket. They are all of it, however short
     * the writes, unless the socket fails before it has taken them.
     */
    method SendFrame(framed: bytes) returns (status: WriteStatus, ghost n: nat)
      requires framed != []
      modifies io
      ensures status != Skipped && n <= |framed| && (status == Success <==> n == |framed|)
      ensures n == if socket == INVALID_SOCKET then 0 else Min(|framed|, TakenBeforeFailure(old(io.script)))
      ensures io.Sent(socket) == old(io.Sent(socket)) + framed[..n]
      ensures io.OnlySentChanged(socket, old(io.sent)) && io.inbox == old(io.inbox) && io.closed == old(io.closed)
    {
      hide SameExcept;
      ghost var prior, answers := io.Sent(socket), io.script;
      SameExceptNow(io.sent, socket);
      assert prior + framed[..0] == prior;
      var written := 0;
      while true
        invariant 0 <= written < |framed|
        invariant io.Sent(socket) == prior + framed[..written]
        invariant socket == INVALID_SOCKET ==> written == 0
        invariant TakenBeforeFailure(answers) == written + TakenBeforeFailure(io.script)
        invariant io.OnlySentChanged(socket, old(io.sent)) && io.inbox == old(io.inbox) && io.closed == old(io.closed)
        decreases |io.script|
      {
        if socket == INVALID_SOCKET {
          return WroteWithFailure, written;
        }
        ghost var before := io.sent;
        var rc := io.Write(socket, framed[written..]);
        SameExceptTwice(old(io.sent), before, io.sent, socket);
        if rc >= 0 {
          AppendPart(prior, framed, written, rc);
          written := written + rc;
          if written == |framed| {
            return Success, written;
          }
        } else {
          return WroteWithFailure, written;
        }
      }
    }

    method Recover(lastValidSequenceNumber: int) returns (replay: Replay)
      requires Valid()
      ensures replay == RecoverFrom(State(), lastValidSequenceNumber)
    {
      if socket != INVALID_SOCKET {
        return Refused;
      }
      var missing := sequenceNumber - lastValidSequenceNumber;
      if missing < 0 {
        return Refused;
      }
      if missing == 0 {
        return Replay([]);
      }
      var out := [];
      var i := 0;
      while i < |backup|
        invariant 0 <= i <= |backup| && i < missing
        invariant out == Reversed(backup[..i])
      {
        out := [Serialize(backup[i])] + out;
        i := i + 1;
        if i == missing {
          return Replay(out);
        }
      }
      replay := Refused;
    }

    method Revive(socket: SocketHandle)
      requires Valid()
      modifies this`socket
      ensures Valid() && State() == old(State()).(socket := socket)
    {
      this.socket := socket;
    }

    method InvalidateSocket()
      requires Valid()
      modifies this`socket
      ensures Valid() && State() == old(State()).(socket := INVALID_SOCKET)
    {
      socket := INVALID_SOCKET;
    }
  }
}
