/**
 * What calls of Read make of one frame, however it arrives: nothing until the last byte of it, and
 * then the packet; a broken socket is reported exactly when the socket failed first.
 */
module FrameReading {
  import opened Bytes
  import opened Packets
  import opened Nonces
  import opened SocketIo
  import opened BackedReaders

  /** The reader is live and has a start of this packet's frame, but not all of it. */
  predicate Awaits(r: ReaderState, s: bytes) {
    && r.socket != INVALID_SOCKET && r.queue == []
    && 0 < |s| <= MAX_FRAME
    && r.partial <= FrameOf(s) && |r.partial| < 4 + |s|
  }

  /** The bytes of the frame still to come. */
  function Lacking(r: ReaderState, s: bytes): bytes
    requires Awaits(r, s)
  {
    FrameOf(s)[|r.partial|..]
  }

  /**
   * The answers of the socket complete a frame of which `have` bytes are there. The header's four
   * bytes and the rest are asked for one after the other, and no answer gives more than was asked.
   */
  predicate Feeds(script: seq<int>, have: nat, total: nat)
    decreases |script|
  {
    || have >= total
    || (script != [] && script[0] > 0
        && Feeds(script[1..], have + Clip(script[0], if have < 4 <= total then 4 - have else total - have), total))
  }

  /** The packet was whole: what it opens to under the reader's next nonce is handed out. */
  ghost predicate Completed(c: Cipher, r: ReaderState, s: bytes, o: ReadOutcome) {
    var (nonce, packet) := Unseal(c, r.nonce, s);
    if packet.None? then o.result == Thrown
    else
      && o.result == Delivered(packet.value)
      && o.reader == r.(nonce := nonce, partial := [], sequenceNumber := r.sequenceNumber + 1)
  }

  /** Some more bytes joined the partial frame, and nothing else happened. */
  ghost predicate Progressed(r: ReaderState, s: bytes, rest: bytes, script: seq<int>, o: ReadOutcome) {
    && o.reader == r.(partial := o.reader.partial)
    && Awaits(o.reader, s) && |r.partial| < |o.reader.partial|
    && o.feed.inbox == Lacking(o.reader, s) + rest
    && |o.feed.script| < |script|
    && (Feeds(script, |r.partial|, 4 + |s|) <==> Feeds(o.feed.script, |o.reader.partial|, 4 + |s|))
  }

  /** The bytes asked for, of those that are there. */
  lemma {:induction false} Given(r: ReaderState, s: bytes, rest: bytes, script: seq<int>, count: nat)
    requires Awaits(r, s) && count <= |Lacking(r, s)| && script != [] && script[0] > 0
    ensures var n := Clip(script[0], count);
            && |r.partial| + n <= 4 + |s|
            && OsRead(Feed(Lacking(r, s) + rest, script), count)
               == (Feed(FrameOf(s)[|r.partial| + n..] + rest, script[1..]), FrameOf(s)[|r.partial|..|r.partial| + n])
            && r.partial + FrameOf(s)[|r.partial|..|r.partial| + n] == FrameOf(s)[..|r.partial| + n]
  {
    FrameLengthField(s);
    hide FrameOf;
    var lacking, n := Lacking(r, s), Clip(script[0], count);
    assert (lacking + rest)[..n] == lacking[..n] == FrameOf(s)[|r.partial|..|r.partial| + n];
    assert (lacking + rest)[n..] == lacking[n..] + rest;
    assert lacking[n..] == FrameOf(s)[|r.partial| + n..];
    assert r.partial == FrameOf(s)[..|r.partial|];
  }

  /** A partial frame with its header knows how long it is. */
  lemma {:induction false} HeaderTells(r: ReaderState, s: bytes)
    requires Awaits(r, s) && |r.partial| >= 4
    ensures FromBe32(r.partial) == |s|
  {
    FrameLengthField(s);
    assert r.partial[..4] == FrameOf(s)[..4];
  }

  /** How one call of Read can end. */
  ghost predicate ReadEnds(c: Cipher, r: ReaderState, s: bytes, rest: bytes, script: seq<int>, o: ReadOutcome) {
    var fed := Feeds(script, |r.partial|, 4 + |s|);
    || (o.result == Broken && !fed)
    || (o.result == Nothing && Progressed(r, s, rest, script, o))
    || (fed && o.feed.inbox == rest && Completed(c, r, s, o))
  }

  /** The whole frame is there. */
  lemma {:induction false} FrameIsWhole(c: Cipher, r: ReaderState, s: bytes, f: Feed)
    requires 0 < |s| <= MAX_FRAME && r.partial == FrameOf(s)
    ensures Completed(c, r, s, FinishBody(c, r, |s|, f)) && FinishBody(c, r, |s|, f).feed == f
  {
    FrameLengthField(s);
    assert r.partial[4..] == s;
    hide Unseal;
  }

  /** Which bytes were there before does not matter for what the packet opens to. */
  lemma {:induction false} SameUnseal(c: Cipher, r: ReaderState, r': ReaderState, s: bytes, o: ReadOutcome)
    requires r' == r.(partial := r'.partial)
    ensures Completed(c, r', s, o) <==> Completed(c, r, s, o)
  {
    hide Unseal;
  }

  /** The first answer brought n bytes, and more are lacking. */
  lemma {:induction false} GoesOn(
    r: ReaderState, s: bytes, rest: bytes, script: seq<int>, n: nat, o: ReadOutcome)
    requires Awaits(r, s) && script != [] && script[0] > 0
    requires var asked := if |r.partial| < 4 then 4 - |r.partial| else 4 + |s| - |r.partial|;
             n == Clip(script[0], asked) && |r.partial| + n < 4 + |s|
    requires o == ReadOutcome(r.(partial := FrameOf(s)[..|r.partial| + n]), Nothing,
                              Feed(FrameOf(s)[|r.partial| + n..] + rest, script[1..]))
    ensures Progressed(r, s, rest, script, o)
  {
    FrameLengthField(s);
    hide FrameOf;
    assert Feeds(script, |r.partial|, 4 + |s|) == Feeds(script[1..], |r.partial| + n, 4 + |s|);
  }

  lemma {:induction false} LastAnswer(script: seq<int>, have: nat, total: nat)
    requires 4 <= have < total && script != [] && script[0] >= total - have
    ensures Feeds(script, have, total)
  {
    assert Feeds(script[1..], total, total);
  }

  lemma {:induction false} BodyRead(c: Cipher, r: ReaderState, s: bytes, rest: bytes, script: seq<int>)
    requires Awaits(r, s) && |r.partial| >= 4
    ensures var o := ReadBody(c, r, Feed(Lacking(r, s) + rest, script));
            && ReadEnds(c, r, s, rest, script, o)
            && (o.result == Broken <==> script == [] || script[0] <= 0)
            && (o.result == Broken ==> o.reader == r)
            && (script != [] && script[0] >= 4 + |s| ==> Completed(c, r, s, o))
  {
    FrameLengthField(s);
    HeaderTells(r, s);
    hide FrameOf, FromBe32, Unseal;
    var f, lacking := Feed(Lacking(r, s) + rest, script), |Lacking(r, s)|;
    if script != [] && script[0] > 0 {
      Given(r, s, rest, script, lacking);
      var n := Clip(script[0], lacking);
      var have := |r.partial| + n;
      var r' := r.(partial := FrameOf(s)[..have]);
      assert ReadBody(c, r, f) == FinishBody(c, r', |s|, Feed(FrameOf(s)[have..] + rest, script[1..]));
      if n == lacking {
        assert FrameOf(s)[have..] + rest == rest && r'.partial == FrameOf(s);
        FrameIsWhole(c, r', s, Feed(rest, script[1..]));
        SameUnseal(c, r, r', s, ReadBody(c, r, f));
        LastAnswer(script, |r.partial|, 4 + |s|);
      } else {
        GoesOn(r, s, rest, script, n, ReadBody(c, r, f));
      }
    } else {
      assert ReadBody(c, r, f).result == Broken;
    }
  }

  /**
   * One call of Read, whatever the answers: nothing yet, the whole packet, or a broken socket. It
   * is broken only if an answer it needed was missing or no count, and then keeps what it has.
   */
  lemma {:induction false} OneRead(c: Cipher, r: ReaderState, s: bytes, rest: bytes, script: seq<int>)
    requires Awaits(r, s)
    ensures var o := ReaderRead(c, r, Feed(Lacking(r, s) + rest, script));
            && ReadEnds(c, r, s, rest, script, o)
            && (|script| >= 2 && script[0] > 0 && script[1] > 0 ==> o.result != Broken)
            && (script == [] || script[0] <= 0 ==> o.result == Broken && o.reader == r)
            && (o.result == Broken ==> Awaits(o.reader, s) && r.partial <= o.reader.partial)
            && (|script| >= 2 && script[0] >= 4 + |s| && script[1] >= 4 + |s| ==> Completed(c, r, s, o))
  {
    FrameLengthField(s);
    hide FrameOf, Unseal, FromBe32, ReadBody;
    var f, have := Feed(Lacking(r, s) + rest, script), |r.partial|;
    if have >= 4 {
      BodyRead(c, r, s, rest, script);
    } else if script != [] && script[0] > 0 {
      Given(r, s, rest, script, 4 - have);
      var n := Clip(script[0], 4 - have);
      var r' := r.(partial := FrameOf(s)[..have + n]);
      var f' := Feed(FrameOf(s)[have + n..] + rest, script[1..]);
      GoesOn(r, s, rest, script, n, ReadOutcome(r', Nothing, f'));
      if have + n == 4 {
        HeaderThenBody(c, r, s, rest, script, r', f');
      } else {
        assert ReaderRead(c, r, f) == ReadOutcome(r', Nothing, f');
      }
    } else {
      assert ReaderRead(c, r, f).result == Broken;
    }
  }

  /** The header is complete and the body is asked for in the same call. */
  lemma {:induction false} HeaderThenBody(
    c: Cipher, r: ReaderState, s: bytes, rest: bytes, script: seq<int>, r': ReaderState, f': Feed)
    requires Awaits(r, s) && script != [] && script[0] > 0 && |r.partial| < 4 == |r'.partial|
    requires Progressed(r, s, rest, script, ReadOutcome(r', Nothing, f')) && f'.script == script[1..]
    ensures var o := ReadBody(c, r', f');
            && ReadEnds(c, r, s, rest, script, o)
            && (o.result == Broken <==> f'.script == [] || f'.script[0] <= 0)
            && (o.result == Broken ==> o.reader == r')
            && (f'.script != [] && f'.script[0] >= 4 + |s| ==> Completed(c, r, s, o))
  {
    hide FrameOf, ReadBody, Unseal;
    BodyRead(c, r', s, rest, f'.script);
    assert f' == Feed(Lacking(r', s) + rest, f'.script);
    var o := ReadBody(c, r', f');
    SameUnseal(c, r, r', s, o);
  }

  // ---------- calls of Read in a row ----------

  datatype Calls = Calls(reader: ReaderState, feed: Feed, results: seq<ReadResult>)

  function ReadTimes(c: Cipher, r: ReaderState, f: Feed, n: nat): Calls
    decreases n
  {
    if n == 0 then Calls(r, f, [])
    else
      var o := ReaderRead(c, r, f);
      var more := ReadTimes(c, o.reader, o.feed, n - 1);
      Calls(more.reader, more.feed, [o.result] + more.results)
  }

  /** Nothing until the last call. */
  predicate NothingBefore(results: seq<ReadResult>, last: ReadResult) {
    && results != [] && results[|results| - 1] == last
    && forall i :: 0 <= i < |results| - 1 ==> results[i] == Nothing
  }

  /** What the packet opens to. */
  function Opened(c: Cipher, r: ReaderState, s: bytes): ReadResult {
    var packet := Unseal(c, r.nonce, s).1;
    if packet.None? then Thrown else Delivered(packet.value)
  }

  /**
   * How calls in a row end: with the packet, if the answers complete its frame, and the bytes
   * behind the frame untouched; with a broken socket if they do not.
   */
  ghost predicate CallsEnd(c: Cipher, r: ReaderState, s: bytes, rest: bytes, script: seq<int>, end: Calls) {
    if Feeds(script, |r.partial|, 4 + |s|) then
      && NothingBefore(end.results, Opened(c, r, s)) && end.feed.inbox == rest
      && (Opened(c, r, s).Delivered? ==>
            end.reader.partial == [] && end.reader.sequenceNumber == r.sequenceNumber + 1)
    else NothingBefore(end.results, Broken)
  }

  lemma {:induction false} NothingFirst(
    c: Cipher, r: ReaderState, s: bytes, rest: bytes, script: seq<int>, o: ReadOutcome, end: Calls)
    requires Progressed(r, s, rest, script, o) && CallsEnd(c, o.reader, s, rest, o.feed.script, end)
    ensures CallsEnd(c, r, s, rest, script, end.(results := [Nothing] + end.results))
  {
    hide Feeds, Unseal, FrameOf, Lacking;
  }

  lemma {:induction false} OnlyCall(
    c: Cipher, r: ReaderState, s: bytes, rest: bytes, script: seq<int>, o: ReadOutcome)
    requires ReadEnds(c, r, s, rest, script, o) && !(o.result == Nothing && Progressed(r, s, rest, script, o))
    ensures CallsEnd(c, r, s, rest, script, Calls(o.reader, o.feed, [o.result]))
  {
    hide Feeds, Unseal, Progressed;
  }

  /** Calling Read until something happens. */
  lemma {:induction false} FrameIsRead(c: Cipher, r: ReaderState, s: bytes, rest: bytes, script: seq<int>)
    returns (n: nat)
    requires Awaits(r, s)
    ensures CallsEnd(c, r, s, rest, script, ReadTimes(c, r, Feed(Lacking(r, s) + rest, script), n))
    decreases |script|
  {
    hide ReaderRead, FrameOf, Feeds, Lacking, CallsEnd, ReadEnds;
    OneRead(c, r, s, rest, script);
    var f := Feed(Lacking(r, s) + rest, script);
    var o := ReaderRead(c, r, f);
    if o.result == Nothing && Progressed(r, s, rest, script, o) {
      assert o.feed == Feed(Lacking(o.reader, s) + rest, o.feed.script);
      n := FrameIsRead(c, o.reader, s, rest, o.feed.script);
      NothingFirst(c, r, s, rest, script, o, ReadTimes(c, o.reader, o.feed, n));
      n := n + 1;
    } else {
      OnlyCall(c, r, s, rest, script, o);
      n := 1;
      OneCall(c, r, f);
    }
  }

  lemma {:induction false} OneCall(c: Cipher, r: ReaderState, f: Feed)
    ensures var o := ReaderRead(c, r, f); ReadTimes(c, r, f, 1) == Calls(o.reader, o.feed, [o.result])
  {
    hide ReaderRead;
    var o := ReaderRead(c, r, f);
    assert ReadTimes(c, o.reader, o.feed, 0) == Calls(o.reader, o.feed, []);
  }

  /** A socket that never fails and is asked often enough completes any frame. */
  lemma {:induction false} PositiveAnswersFeed(script: seq<int>, have: nat, total: nat)
    requires forall i :: 0 <= i < |script| ==> script[i] > 0
    requires have + |script| >= total
    ensures Feeds(script, have, total)
    decreases |script|
  {
    if have < total {
      var n := Clip(script[0], if have < 4 <= total then 4 - have else total - have);
      PositiveAnswersFeed(script[1..], have + n, total);
    }
  }

  // ---------- every cutting ----------

  function Concat(pieces: seq<bytes>): bytes {
    if pieces == [] then [] else pieces[0] + Concat(pieces[1..])
  }

  /** The answers when the frame arrives in these pieces: one that spans the header's end gives two. */
  function AnswersFor(pieces: seq<bytes>, have: nat): seq<int> {
    if pieces == [] then []
    else
      var n := |pieces[0]|;
      (if have < 4 < have + n then [4 - have, have + n - 4] else [n]) + AnswersFor(pieces[1..], have + n)
  }

  lemma {:induction false} CuttingFeeds(pieces: seq<bytes>, have: nat, total: nat)
    requires 4 < total == have + |Concat(pieces)|
    requires forall i :: 0 <= i < |pieces| ==> pieces[i] != []
    ensures Feeds(AnswersFor(pieces, have), have, total)
    decreases |pieces|
  {
    if pieces != [] {
      var n, more := |pieces[0]|, AnswersFor(pieces[1..], have + |pieces[0]|);
      CuttingFeeds(pieces[1..], have + n, total);
      if have < 4 < have + n {
        var script := AnswersFor(pieces, have);
        assert script[1..] == [have + n - 4] + more && script[1..][1..] == more;
        assert Feeds(script[1..], 4, total);
      } else {
        assert ([n] + more)[1..] == more;
      }
    }
  }

  /**
   * However the frame of a packet is cut into pieces, calls of Read return nothing until the last,
   * which hands out the packet.
   */
  lemma {:induction false} EveryCuttingDelivers(c: Cipher, r: ReaderState, s: bytes, pieces: seq<bytes>)
    returns (n: nat)
    requires Awaits(r, s) && r.partial == [] && Unseal(c, r.nonce, s).1.Some?
    requires Concat(pieces) == FrameOf(s) && forall i :: 0 <= i < |pieces| ==> pieces[i] != []
    ensures var end := ReadTimes(c, r, Feed(FrameOf(s), AnswersFor(pieces, 0)), n);
            && NothingBefore(end.results, Delivered(Unseal(c, r.nonce, s).1.value))
            && end.feed.inbox == [] && end.reader.partial == []
            && end.reader.sequenceNumber == r.sequenceNumber + 1
  {
    FrameLengthField(s);
    CuttingFeeds(pieces, 0, 4 + |s|);
    n := FrameIsRead(c, r, s, [], AnswersFor(pieces, 0));
    hide FrameOf, Unseal, ReadTimes;
    assert Lacking(r, s) + [] == FrameOf(s);
  }
}
