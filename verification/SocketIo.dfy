/**
 * The socket layer. The operating system is a script of answers, one per call: the number of
 * bytes moved (clipped to what can be moved), or a value <= 0 for a closed or failed socket.
 * An exhausted script answers failure, so every finite behaviour of a retry loop is a script.
 */
module SocketIo {
  import opened Bytes
  import opened Packets

  type SocketHandle = int

  const INVALID_SOCKET: SocketHandle := -1

  const SOCKET_TIMEOUT_SECONDS: int := 30

  /** What one connection will still hand to its reader, and the answers to come. */
  datatype Feed = Feed(inbox: bytes, script: seq<int>)

  function Min(a: nat, b: nat): nat {
    if a <= b then a else b
  }

  function Clip(answer: int, count: nat): nat {
    if answer <= 0 then 0 else if answer < count then answer else count
  }

  /** One `recv`: the bytes it returned ([] for a result <= 0) and what is left. */
  function OsRead(f: Feed, count: nat): (Feed, bytes) {
    if f.script == [] then (f, [])
    else
      var n := Clip(f.script[0], Min(count, |f.inbox|));
      (Feed(f.inbox[n..], f.script[1..]), f.inbox[..n])
  }

  /** How a blocking loop ended; Waiting is a loop still retrying when the script ran out. */
  datatype IoOutcome = Done | Threw | Waiting

  /** What a reader makes of a byte stream that should start with a framed packet. */
  datatype Taken = Taken(packet: Packet, rest: bytes) | Malformed | Short

  function TakePacket(b: bytes): Taken {
    if |b| < 4 then Short
    else
      var n := FromBe32(b);
      if n == 0 || n > MAX_FRAME then Malformed
      else if |b| < 4 + n then Short
      else Taken(Parse(b[4..4 + n]), b[4 + n..])
  }

  /** Reading back a framed packet returns it and leaves the bytes behind the frame alone. */
  lemma TakePacketOfFrame(p: Packet, rest: bytes)
    ensures Length(p) <= MAX_FRAME ==> TakePacket(FrameOf(Serialize(p)) + rest) == Taken(p, rest)
    ensures MAX_FRAME < Length(p) < TWO_TO_THE_32 ==> TakePacket(FrameOf(Serialize(p)) + rest) == Malformed
  {
    var s := Serialize(p);
    var b := FrameOf(s) + rest;
    ParseSerialize(p);
    FrameLengthField(s);
    assert b[..4] == FrameOf(s)[..4];
    assert FromBe32(b) == FromBe32(FrameOf(s));
    if |s| <= MAX_FRAME {
      assert b[4..4 + |s|] == s;
      assert b[4 + |s|..] == rest;
    }
  }

  /** No handle but h has other bytes now. */
  ghost predicate SameExcept(was: map<SocketHandle, bytes>, now: map<SocketHandle, bytes>, h: SocketHandle) {
    forall g :: g != h ==> (g in now <==> g in was) && (g in now ==> now[g] == was[g])
  }

  lemma SameExceptTwice(
    was: map<SocketHandle, bytes>, next: map<SocketHandle, bytes>, now: map<SocketHandle, bytes>, h: SocketHandle)
    requires SameExcept(was, next, h) && SameExcept(next, now, h)
    ensures SameExcept(was, now, h)
  {
  }

  lemma SameExceptNow(now: map<SocketHandle, bytes>, h: SocketHandle)
    ensures SameExcept(now, now, h)
  {
  }

  lemma AfterPart(a: bytes, b: bytes)
    ensures (a + b)[..|a|] == a && (a + b)[|a|..] == b
  {
  }

  lemma SameLength(head: bytes, rest: bytes)
    requires |head| == 4
    ensures FromBe32(head + rest) == FromBe32(head)
  {
  }

  lemma Regroup(a: bytes, b: bytes, c: bytes)
    ensures a + (b + c) == (a + b) + c
  {
  }

  lemma PartOfFrame(head: bytes, data: bytes, n: nat)
    requires n <= |head|
    ensures (head + data)[..n] == head[..n] && head[..|head|] == head
  {
  }

  /** Two consecutive parts of a buffer, appended one after the other. */
  lemma AppendPart(prior: bytes, buf: bytes, pos: nat, n: nat)
    requires pos + n <= |buf|
    ensures prior + buf[..pos + n] == prior + buf[..pos] + buf[pos..][..n]
  {
    assert buf[..pos + n] == buf[..pos] + buf[pos..][..n];
  }

  // ---------- what a script of answers amounts to ----------

  /** Bytes a socket takes before its first negative answer. */
  function TakenBeforeFailure(script: seq<int>): nat {
    if script == [] || script[0] < 0 then 0 else script[0] + TakenBeforeFailure(script[1..])
  }

  /** Bytes a socket takes before its first answer of zero, whatever negative ones come between. */
  function TakenBeforeZero(script: seq<int>): nat {
    if script == [] || script[0] == 0 then 0
    else (if script[0] > 0 then script[0] else 0) + TakenBeforeZero(script[1..])
  }

  /** The answers to reads alone, once those that only say "not ready" are left out. */
  function Grants(script: seq<int>): seq<int>
    decreases |script|
  {
    if script == [] then []
    else if script[0] <= 0 then Grants(script[1..])
    else if |script| == 1 then [0]
    else [script[1]] + Grants(script[2..])
  }

  function GrantedBeforeStop(grants: seq<int>): nat {
    if grants == [] || grants[0] <= 0 then 0 else grants[0] + GrantedBeforeStop(grants[1..])
  }

  predicate Stops(grants: seq<int>) {
    exists i :: 0 <= i < |grants| && grants[i] <= 0
  }

  lemma {:induction false} StopsCons(g: int, grants: seq<int>)
    ensures Stops([g] + grants) <==> g <= 0 || Stops(grants)
  {
    var all := [g] + grants;
    if Stops(grants) {
      var i :| 0 <= i < |grants| && grants[i] <= 0;
      assert all[i + 1] <= 0;
    }
    if g <= 0 {
      assert all[0] <= 0;
    }
    if Stops(all) && g > 0 {
      var i :| 0 <= i < |all| && all[i] <= 0;
      assert grants[i - 1] <= 0;
    }
  }

  /** One look at a clock: its reading, and the readings to come. */
  function Look(clock: seq<int>): (int, seq<int>) {
    (if clock == [] then 0 else clock[0], if |clock| > 1 then clock[1..] else clock)
  }

  /** No two readings are more than the timeout apart. */
  predicate Steady(clock: seq<int>) {
    forall i, j :: 0 <= i <= j < |clock| ==> clock[j] - clock[i] <= SOCKET_TIMEOUT_SECONDS
  }

  /** Nor are a reading already taken and those to come. */
  predicate Calm(start: int, clock: seq<int>) {
    (clock == [] && start == 0) || (clock != [] && Steady([start] + clock))
  }

  /** The first two readings are more than the timeout apart. */
  predicate Late(clock: seq<int>) {
    |clock| > 1 && clock[1] - clock[0] > SOCKET_TIMEOUT_SECONDS
  }

  lemma {:induction false} CalmStarts(clock: seq<int>)
    requires Steady(clock)
    ensures var (now, more) := Look(clock); Calm(now, more)
  {
    if clock != [] {
      var (now, more) := Look(clock);
      assert |clock| > 1 ==> [now] + more == clock;
    }
  }

  lemma {:induction false} CalmGoesOn(start: int, clock: seq<int>)
    requires Calm(start, clock)
    ensures var (now, more) := Look(clock);
            now - start <= SOCKET_TIMEOUT_SECONDS && Calm(now, more) && Calm(start, more)
  {
    if clock != [] {
      var (now, more) := Look(clock);
      var all := [start] + clock;
      assert all[0] == start && all[1] == now;
      assert forall i :: 0 <= i < |more| ==> more[i] == all[if |clock| > 1 then i + 2 else i + 1];
    }
  }

  // ---------- the two retry loops ----------

  /** How a loop ended, how many bytes it moved, and the answers still to come. */
  datatype LoopEnd = LoopEnd(outcome: IoOutcome, moved: nat, script: seq<int>)

  function After(n: nat, rest: LoopEnd): LoopEnd {
    LoopEnd(rest.outcome, n + rest.moved, rest.script)
  }

  /** One round of a loop: whether it threw, the bytes moved, and the answers and clock after it. */
  datatype Round = Round(threw: bool, moved: nat, script: seq<int>, clock: seq<int>, start: int)

  function ReadRound(
    available: nat, script: seq<int>, clock: seq<int>, start: int, count: nat, timeout: bool): (r: Round)
    requires script != []
    ensures r.moved <= count && r.moved <= available && |r.script| < |script|
    ensures r.threw ==> r.moved == 0
  {
    var (now, later) := Look(clock);
    var more := script[1..];
    if script[0] <= 0 then
      Round(timeout && now - start > SOCKET_TIMEOUT_SECONDS, 0, more, if timeout then later else clock, start)
    else
      var n := if more == [] then 0 else Clip(more[0], Min(count, available));
      var script' := if more == [] then [] else more[1..];
      if n == 0 then Round(true, 0, script', clock, start) else Round(false, n, script', later, now)
  }

  function ReadLoop(available: nat, script: seq<int>, clock: seq<int>, start: int, count: nat, timeout: bool): LoopEnd
    decreases |script|
  {
    if count == 0 then LoopEnd(Done, 0, script)
    else if script == [] then LoopEnd(Waiting, 0, script)
    else
      var r := ReadRound(available, script, clock, start, count, timeout);
      if r.threw then LoopEnd(Threw, 0, r.script)
      else After(r.moved, ReadLoop(available - r.moved, r.script, r.clock, r.start, count - r.moved, timeout))
  }

  function WriteRound(script: seq<int>, clock: seq<int>, start: int, count: nat, timeout: bool): (r: Round)
    requires script != []
    ensures r.moved <= count && (if r.threw then r.moved == 0 else |r.script| < |script|)
  {
    var (now, later) := Look(clock);
    var clock' := if timeout then later else clock;
    if timeout && now - start > SOCKET_TIMEOUT_SECONDS then Round(true, 0, script, clock', start)
    else
      var n := Clip(script[0], count);
      if n == 0 then Round(script[0] >= 0, 0, script[1..], clock', start)
      else Round(false, n, script[1..], Look(clock').1, Look(clock').0)
  }

  function WriteLoop(script: seq<int>, clock: seq<int>, start: int, count: nat, timeout: bool): LoopEnd
    decreases |script|
  {
    if count == 0 then LoopEnd(Done, 0, script)
    else if script == [] then LoopEnd(Waiting, 0, script)
    else
      var r := WriteRound(script, clock, start, count, timeout);
      if r.threw then LoopEnd(Threw, 0, r.script)
      else After(r.moved, WriteLoop(r.script, r.clock, r.start, count - r.moved, timeout))
  }

  /** One round uses up one grant, or none while the socket is not ready. */
  lemma {:induction false} RoundUsesGrant(
    available: nat, script: seq<int>, clock: seq<int>, start: int, count: nat, timeout: bool)
    requires script != [] && 0 < count <= available && (timeout ==> Calm(start, clock))
    ensures var r, grants := ReadRound(available, script, clock, start, count, timeout), Grants(script);
            if r.threw then grants != [] && grants[0] <= 0
            else
              && (timeout ==> Calm(r.start, r.clock))
              && ((r.moved == 0 && grants == Grants(r.script))
                  || (grants != [] && grants[0] > 0 && r.moved == Min(grants[0], count)
                      && grants[1..] == Grants(r.script)))
  {
    hide Calm, Look;
    if timeout {
      CalmGoesOn(start, clock);
    }
    if |script| > 1 {
      assert script[1..][1..] == script[2..];
    }
  }

  /**
   * While the bytes are there and the clock is calm, a read loop gets as many as are granted
   * before an answer that ends it, and throws exactly if there is one before it has them all.
   */
  lemma {:induction false} ReadLoopEnd(
    available: nat, script: seq<int>, clock: seq<int>, start: int, count: nat, timeout: bool)
    requires count <= available && (timeout ==> Calm(start, clock))
    ensures var end, grants := ReadLoop(available, script, clock, start, count, timeout), Grants(script);
            && end.moved == Min(count, GrantedBeforeStop(grants))
            && (end.outcome == Done <==> end.moved == count)
            && (end.outcome == Threw <==> end.moved < count && Stops(grants))
    decreases |script|
  {
    hide Calm, Stops, ReadRound, Grants, Look, Clip;
    NoStop();
    if script != [] && count > 0 {
      var r, grants := ReadRound(available, script, clock, start, count, timeout), Grants(script);
      RoundUsesGrant(available, script, clock, start, count, timeout);
      if r.threw {
        FirstGrant(grants);
      } else {
        ReadLoopEnd(available - r.moved, r.script, r.clock, r.start, count - r.moved, timeout);
        if grants != Grants(r.script) {
          FirstGrant(grants);
        }
      }
    }
  }

  lemma {:induction false} NoStop()
    ensures !Stops([]) && Grants([]) == []
  {
  }

  lemma {:induction false} FirstGrant(grants: seq<int>)
    requires grants != []
    ensures Stops(grants) <==> grants[0] <= 0 || Stops(grants[1..])
    ensures GrantedBeforeStop(grants) == if grants[0] <= 0 then 0 else grants[0] + GrantedBeforeStop(grants[1..])
  {
    StopsCons(grants[0], grants[1..]);
    assert grants == [grants[0]] + grants[1..];
  }

  /** What a loop that has moved `had` bytes comes to after one more round. */
  lemma {:induction false} OneWriteRound(
    had: nat, script: seq<int>, clock: seq<int>, start: int, count: nat, timeout: bool)
    requires script != [] && count > 0
    ensures var r := WriteRound(script, clock, start, count, timeout);
            After(had, WriteLoop(script, clock, start, count, timeout))
            == if r.threw then LoopEnd(Threw, had, r.script)
               else After(had + r.moved, WriteLoop(r.script, r.clock, r.start, count - r.moved, timeout))
  {
    hide WriteRound;
  }

  lemma {:induction false} OneReadRound(
    had: nat, available: nat, script: seq<int>, clock: seq<int>, start: int, count: nat, timeout: bool)
    requires script != [] && count > 0
    ensures var r := ReadRound(available, script, clock, start, count, timeout);
            After(had, ReadLoop(available, script, clock, start, count, timeout))
            == if r.threw then LoopEnd(Threw, had, r.script)
               else After(had + r.moved,
                          ReadLoop(available - r.moved, r.script, r.clock, r.start, count - r.moved, timeout))
  {
    hide ReadRound;
  }

  lemma AfterNothing(end: LoopEnd)
    ensures After(0, end) == end
  {
  }

  lemma {:induction false} LoopsStop(had: nat, available: nat, clock: seq<int>, start: int, timeout: bool)
    ensures forall script :: After(had, WriteLoop(script, clock, start, 0, timeout)) == LoopEnd(Done, had, script)
    ensures forall script ::
              After(had, ReadLoop(available, script, clock, start, 0, timeout)) == LoopEnd(Done, had, script)
    ensures forall count: nat :: count > 0 ==>
              && After(had, WriteLoop([], clock, start, count, timeout)) == LoopEnd(Waiting, had, [])
              && After(had, ReadLoop(available, [], clock, start, count, timeout)) == LoopEnd(Waiting, had, [])
  {
  }

  lemma {:induction false} RoundUsesAnswer(
    script: seq<int>, clock: seq<int>, start: int, count: nat, timeout: bool)
    requires script != [] && count > 0 && (timeout ==> Calm(start, clock))
    ensures var r := WriteRound(script, clock, start, count, timeout);
            && r.script == script[1..] && (r.threw <==> script[0] == 0)
            && (!r.threw ==> r.moved == (if script[0] < 0 then 0 else Min(script[0], count))
                             && (timeout ==> Calm(r.start, r.clock)))
  {
    hide Calm, Look;
    if timeout {
      CalmGoesOn(start, clock);
      CalmGoesOn(start, Look(clock).1);
    }
  }

  /** A write loop gets out what is taken before an answer of zero; negative ones only delay it. */
  lemma {:induction false} WriteLoopEnd(script: seq<int>, clock: seq<int>, start: int, count: nat, timeout: bool)
    requires timeout ==> Calm(start, clock)
    ensures var end := WriteLoop(script, clock, start, count, timeout);
            && end.moved == Min(count, TakenBeforeZero(script))
            && (end.outcome == Done <==> end.moved == count)
            && (end.outcome == Threw <==> end.moved < count && 0 in script)
    decreases |script|
  {
    hide Calm, WriteRound;
    if script != [] && count > 0 {
      var r := WriteRound(script, clock, start, count, timeout);
      RoundUsesAnswer(script, clock, start, count, timeout);
      assert 0 in script <==> script[0] == 0 || 0 in script[1..] by {
        assert script == [script[0]] + script[1..];
      }
      if !r.threw {
        WriteLoopEnd(r.script, r.clock, r.start, count - r.moved, timeout);
      }
    }
  }

  /** The answers that move bytes. */
  function Positives(script: seq<int>): nat {
    if script == [] then 0 else (if script[0] > 0 then 1 else 0) + Positives(script[1..])
  }

  /** A socket that is asked often enough and never ends takes everything. */
  lemma {:induction false} WriteLoopServes(script: seq<int>, clock: seq<int>, start: int, count: nat)
    requires 0 !in script && Positives(script) >= count
    ensures var end := WriteLoop(script, clock, start, count, false);
            end.outcome == Done && 0 !in end.script && Positives(end.script) + count >= Positives(script)
    decreases |script|
  {
    hide Look;
    if count > 0 {
      var r := WriteRound(script, clock, start, count, false);
      assert r.script == script[1..] && forall x :: x in script[1..] ==> x in script;
      assert script[0] in script;
      WriteLoopServes(r.script, r.clock, r.start, count - r.moved);
    }
  }

  /** And one that never ends gives everything that is there. */
  lemma {:induction false} ReadLoopServes(
    available: nat, script: seq<int>, clock: seq<int>, start: int, count: nat)
    requires !Stops(Grants(script)) && |Grants(script)| >= count && count <= available
    ensures var end := ReadLoop(available, script, clock, start, count, false);
            end.outcome == Done && !Stops(Grants(end.script)) && |Grants(end.script)| + count >= |Grants(script)|
    decreases |script|
  {
    hide Look, Stops, Grants, ReadRound;
    NoStop();
    if count > 0 {
      var r, grants := ReadRound(available, script, clock, start, count, false), Grants(script);
      RoundUsesGrant(available, script, clock, start, count, false);
      FirstGrant(grants);
      ReadLoopServes(available - r.moved, r.script, r.clock, r.start, count - r.moved);
    }
  }

  /** With a timeout, a silence of more than 30 seconds ends either loop. */
  lemma {:induction false} SilenceThrows(available: nat, script: seq<int>, clock: seq<int>, count: nat)
    requires Late(clock) && count > 0 && script != []
    ensures WriteLoop(script, clock[1..], clock[0], count, true).outcome == Threw
    ensures script[0] <= 0 ==>
              ReadLoop(available, script, clock[1..], clock[0], count, true).outcome == Threw
  {
  }

  class SocketHandler {
    var inbox: map<SocketHandle, bytes>
    var sent: map<SocketHandle, bytes>
    var closed: seq<SocketHandle>
    var script: seq<int>
    var clock: seq<int>

    function Inbox(h: SocketHandle): bytes
      reads this
    {
      if h in inbox then inbox[h] else []
    }

    function Sent(h: SocketHandle): bytes
      reads this
    {
      if h in sent then sent[h] else []
    }

    ghost function FeedOf(h: SocketHandle): Feed
      reads this
    {
      Feed(Inbox(h), script)
    }

    ghost predicate OnlyInboxChanged(h: SocketHandle, was: map<SocketHandle, bytes>)
      reads this
    {
      SameExcept(was, inbox, h)
    }

    ghost predicate OnlySentChanged(h: SocketHandle, was: map<SocketHandle, bytes>)
      reads this
    {
      SameExcept(was, sent, h)
    }

    /** One look at the clock, in seconds; it stands still when its readings have run out. */
    method Now() returns (seconds: int)
      modifies `clock
      ensures (seconds, clock) == Look(old(clock))
    {
      seconds := if clock == [] then 0 else clock[0];
      if |clock| > 1 {
        clock := clock[1..];
      }
    }

    /** With a timeout, the look at the clock in each round. */
    method Expired(timeout: bool, start: int) returns (late: bool)
      modifies `clock
      ensures late == (timeout && Look(old(clock)).0 - start > SOCKET_TIMEOUT_SECONDS)
      ensures clock == if timeout then Look(old(clock)).1 else old(clock)
    {
      late := false;
      if timeout {
        var now := Now();
        late := now - start > SOCKET_TIMEOUT_SECONDS;
      }
    }

    method HasData(h: SocketHandle) returns (ready: bool)
      modifies `script
      ensures if old(script) == [] then !ready && script == []
              else ready == (old(script)[0] > 0) && script == old(script)[1..]
    {
      if script == [] {
        return false;
      }
      ready := script[0] > 0;
      script := script[1..];
    }

    method Read(h: SocketHandle, count: nat) returns (data: bytes)
      modifies `inbox, `script
      ensures (FeedOf(h), data) == OsRead(old(FeedOf(h)), count)
      ensures |data| <= count && old(Inbox(h)) == data + Inbox(h)
      ensures script == if old(script) == [] then [] else old(script)[1..]
      ensures |data| == if old(script) == [] then 0 else Clip(old(script)[0], Min(count, |old(Inbox(h))|))
      ensures OnlyInboxChanged(h, old(inbox))
    {
      if script == [] {
        return [];
      }
      var available := Inbox(h);
      var n := Clip(script[0], Min(count, |available|));
      data := available[..n];
      inbox := inbox[h := available[n..]];
      script := script[1..];
    }

    /** Returns the count written, 0 or more, or -1. */
    method Write(h: SocketHandle, buf: bytes) returns (rc: int)
      modifies `sent, `script
      ensures -1 <= rc <= |buf|
      ensures Sent(h) == old(Sent(h)) + if rc > 0 then buf[..rc] else []
      ensures if old(script) == [] then rc == -1 && script == []
              else rc == (if old(script)[0] < 0 then -1 else Clip(old(script)[0], |buf|))
                   && script == old(script)[1..]
      ensures OnlySentChanged(h, old(sent))
    {
      if script == [] {
        return -1;
      }
      rc := if script[0] < 0 then -1 else Clip(script[0], |buf|);
      if rc > 0 {
        sent := sent[h := Sent(h) + buf[..rc]];
      }
      script := script[1..];
    }

    method Close(h: SocketHandle)
      modifies `closed
      ensures closed == old(closed) + [h]
    {
      closed := closed + [h];
    }

    /**
     * However the reads are cut up, the bytes returned are the next bytes of the stream. A socket
     * that is not ready is asked again; with a timeout, 30 seconds without any bytes throw.
     */
    method ReadAll(h: SocketHandle, count: nat, timeout: bool) returns (outcome: IoOutcome, data: bytes)
      modifies `inbox, `script, `clock
      ensures old(Inbox(h)) == data + Inbox(h)
      ensures |data| <= count && (outcome == Done <==> |data| == count)
      ensures LoopEnd(outcome, |data|, script)
           == ReadLoop(|old(Inbox(h))|, old(script), Look(old(clock)).1, Look(old(clock)).0, count, timeout)
      ensures OnlyInboxChanged(h, old(inbox))
    {
      hide Look, Clip, OsRead, ReadRound, SameExcept, ReadLoop, After;
      SameExceptNow(inbox, h);
      data := [];
      ghost var stream := Inbox(h);
      assert stream == data + stream;
      var start := Now();
      ghost var end := ReadLoop(|stream|, script, clock, start, count, timeout);
      AfterNothing(end);
      while |data| < count
        invariant |data| <= count
        invariant stream == data + Inbox(h)
        invariant OnlyInboxChanged(h, old(inbox))
        invariant end == After(|data|, ReadLoop(|Inbox(h)|, script, clock, start, count - |data|, timeout))
        decreases |script|
      {
        if script == [] {
          LoopsStop(|data|, |Inbox(h)|, clock, start, timeout);
          return Waiting, data;
        }
        OneReadRound(|data|, |Inbox(h)|, script, clock, start, count - |data|, timeout);
        var threw, chunk;
        ghost var before := inbox;
        threw, chunk, start := ReadSome(h, count - |data|, timeout, start);
        SameExceptTwice(old(inbox), before, inbox, h);
        if threw {
          return Threw, data;
        }
        Regroup(data, chunk, Inbox(h));
        data := data + chunk;
      }
      LoopsStop(|data|, |Inbox(h)|, clock, start, timeout);
      outcome := Done;
    }

    /** The body of the loop: at most one read, from which the clock is started again. */
    method ReadSome(h: SocketHandle, count: nat, timeout: bool, start: int)
      returns (threw: bool, chunk: bytes, restart: int)
      requires script != [] && count > 0
      modifies `inbox, `script, `clock
      ensures old(Inbox(h)) == chunk + Inbox(h) && (threw ==> Inbox(h) == old(Inbox(h)))
      ensures Round(threw, |chunk|, script, clock, restart)
           == ReadRound(|old(Inbox(h))|, old(script), old(clock), start, count, timeout)
      ensures OnlyInboxChanged(h, old(inbox))
    {
      hide Look, OsRead, Clip;
      threw, chunk, restart := false, [], start;
      ghost var stream := Inbox(h);
      assert stream == [] + stream;
      var ready := HasData(h);
      if !ready {
        threw := Expired(timeout, start);
        return;
      }
      chunk := Read(h, count);
      if chunk == [] {
        threw := true;
        return;
      }
      restart := Now();
    }

    /** However the writes are cut up, what reaches the stream is a prefix of the buffer. */
    method WriteAllOrThrow(h: SocketHandle, buf: bytes, timeout: bool) returns (outcome: IoOutcome, pos: nat)
      modifies `sent, `script, `clock
      ensures pos <= |buf| && (outcome == Done <==> pos == |buf|)
      ensures Sent(h) == old(Sent(h)) + buf[..pos]
      ensures LoopEnd(outcome, pos, script)
           == WriteLoop(old(script), Look(old(clock)).1, Look(old(clock)).0, |buf|, timeout)
      ensures OnlySentChanged(h, old(sent))
    {
      hide Look, SameExcept, WriteRound, Clip, WriteLoop, After;
      SameExceptNow(sent, h);
      pos := 0;
      ghost var prior := Sent(h);
      assert prior + buf[..0] == prior;
      var start := Now();
      ghost var end := WriteLoop(script, clock, start, |buf|, timeout);
      AfterNothing(end);
      while pos < |buf|
        invariant pos <= |buf|
        invariant Sent(h) == prior + buf[..pos]
        invariant OnlySentChanged(h, old(sent))
        invariant end == After(pos, WriteLoop(script, clock, start, |buf| - pos, timeout))
        decreases |script|
      {
        if script == [] {
          LoopsStop(pos, 0, clock, start, timeout);
          return Waiting, pos;
        }
        OneWriteRound(pos, script, clock, start, |buf| - pos, timeout);
        var threw, n;
        ghost var before := sent;
        threw, n, start := WriteSome(h, buf[pos..], timeout, start);
        SameExceptTwice(old(sent), before, sent, h);
        if threw {
          return Threw, pos;
        }
        AppendPart(prior, buf, pos, n);
        pos := pos + n;
      }
      LoopsStop(pos, 0, clock, start, timeout);
      outcome := Done;
    }

    /** The body of the loop: at most one write, from which the clock is started again. */
    method WriteSome(h: SocketHandle, rest: bytes, timeout: bool, start: int)
      returns (threw: bool, n: nat, restart: int)
      requires script != [] && rest != []
      modifies `sent, `script, `clock
      ensures n <= |rest| && Sent(h) == old(Sent(h)) + rest[..n]
      ensures threw ==> n == 0 && Sent(h) == old(Sent(h))
      ensures Round(threw, n, script, clock, restart) == WriteRound(old(script), old(clock), start, |rest|, timeout)
      ensures OnlySentChanged(h, old(sent))
    {
      hide Look;
      threw, n, restart := false, 0, start;
      ghost var prior := Sent(h);
      assert prior + rest[..0] == prior;
      var late := Expired(timeout, start);
      if late {
        threw := true;
        return;
      }
      var rc := Write(h, rest);
      if rc == 0 {
        threw := true;
        return;
      }
      if rc < 0 {
        return;
      }
      n := rc;
      restart := Now();
    }

    /**
     * A call that returns has taken exactly one frame off the stream; one that does not has taken
     * at most the frame's bytes.
     */
    method ReadPacket(h: SocketHandle) returns (outcome: IoOutcome, packet: Packet, ghost taken: nat)
      modifies `inbox, `script, `clock
      ensures outcome == Done ==> TakePacket(old(Inbox(h))) == Taken(packet, Inbox(h))
      ensures TakePacket(old(Inbox(h))).Malformed? ==> outcome != Done
      ensures (TakePacket(old(Inbox(h))).Taken?
               && !Stops(Grants(old(script))) && |Grants(old(script))| >= 4 + FromBe32(old(Inbox(h))))
              ==> outcome == Done
      ensures taken <= |old(Inbox(h))| && Inbox(h) == old(Inbox(h))[taken..]
      ensures taken > 4 ==> taken <= 4 + FromBe32(old(Inbox(h))) <= 4 + MAX_FRAME
      ensures OnlyInboxChanged(h, old(inbox))
    {
      hide FromBe32, Parse, SameExcept, Clip, OsRead;
      packet := Packet(false, 255, []);
      ghost var stream := Inbox(h);
      var head, body;
      ghost var serves := TakePacket(stream).Taken? && !Stops(Grants(script))
                          && |Grants(script)| >= 4 + FromBe32(stream);
      if serves {
        ReadLoopServes(|stream|, script, Look(clock).1, Look(clock).0, 4);
      }
      hide ReadLoop, Look, Grants, Stops;
      outcome, head := ReadAll(h, 4, false);
      taken := |head|;
      AfterPart(head, Inbox(h));
      if outcome != Done {
        return;
      }
      var n := FromBe32(head);
      SameLength(head, Inbox(h));
      if n == 0 || n > MAX_FRAME {
        outcome := Threw;
        return;
      }
      if serves {
        ReadLoopServes(|Inbox(h)|, script, Look(clock).1, Look(clock).0, n);
      }
      ghost var before := inbox;
      outcome, body := ReadAll(h, n, false);
      SameExceptTwice(old(inbox), before, inbox, h);
      taken := 4 + |body|;
      Regroup(head, body, Inbox(h));
      AfterPart(head + body, Inbox(h));
      if outcome != Done {
        return;
      }
      AfterPart(head, body + Inbox(h));
      AfterPart(body, Inbox(h));
      packet := Parse(body);
      assert stream[4..4 + n] == body;
    }

    /** A call that returns has put exactly one frame on the stream; one that does not, a part. */
    method WritePacket(h: SocketHandle, packet: Packet) returns (outcome: IoOutcome, ghost n: nat)
      modifies `sent, `script, `clock
      ensures n <= |FrameOf(Serialize(packet))|
      ensures Sent(h) == old(Sent(h)) + FrameOf(Serialize(packet))[..n]
      ensures outcome == Done <==> n == |FrameOf(Serialize(packet))|
      ensures outcome == Done ==> Length(packet) <= MAX_FRAME
      ensures (Length(packet) <= MAX_FRAME
               && 0 !in old(script) && Positives(old(script)) >= |FrameOf(Serialize(packet))|)
              ==> outcome == Done
      ensures Length(packet) > MAX_FRAME ==> outcome == Threw && n == 0
      ensures OnlySentChanged(h, old(sent))
    {
      var data := Serialize(packet);
      ParseSerialize(packet);
      FrameLengthField(data);
      ghost var frame, before := FrameOf(data), Sent(h);
      n := 0;
      assert frame[..0] == [];
      if |data| > MAX_FRAME {
        return Threw, 0;
      }
      var head := Be32(Truncate32(|data|));
      assert frame == head + data;
      hide Be32, Truncate32, FrameOf, Serialize, OsRead, Clip;
      var pos;
      ghost var serves := 0 !in script && Positives(script) >= 4 + |data|;
      if serves {
        WriteLoopServes(script, Look(clock).1, Look(clock).0, 4);
      }
      hide WriteLoop, Look;
      outcome, pos := WriteAllOrThrow(h, head, false);
      n := pos;
      if outcome != Done {
        PartOfFrame(head, data, pos);
        return;
      }
      PartOfFrame(head, data, 4);
      if serves {
        WriteLoopServes(script, Look(clock).1, Look(clock).0, |data|);
      }
      outcome, pos := WriteAllOrThrow(h, data, false);
      n := 4 + pos;
      AppendPart(before, frame, 4, pos);
      AfterPart(head, data);
    }
  }
}
