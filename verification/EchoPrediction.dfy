/** Predictive echo: typed text is shown at once, and its echo from the remote end swallowed. */
module EchoPrediction {
  const CAP: nat := 4096

  predicate IsErase(c: char) {
    c as int == 8 || c as int == 127
  }

  predicate IsPrintable(c: char) {
    32 <= c as int <= 126
  }

  /** Backspace, blank, backspace. */
  const ERASED: string := [8 as char, ' ', 8 as char]

  // ---------- the two calls ----------

  /** What was typed and is not yet echoed, before the cap, and what is displayed for it. */
  function Local(pending: string, data: string): (string, string) {
    if data == "" then (pending, "")
    else
      var (before, display) := Local(pending, data[..|data| - 1]);
      var c := data[|data| - 1];
      if IsErase(c) then
        if before == "" then (before, display) else (before[..|before| - 1], display + ERASED)
      else if IsPrintable(c) then (before + [c], display + [c])
      else (before, display)
  }

  function Capped(pending: string): string {
    if |pending| > CAP then pending[|pending| - CAP..] else pending
  }

  /** How much of the output is the echo of what is pending. */
  function Agreement(output: string, pending: string): (n: nat)
    ensures n <= |output| && n <= |pending| && output[..n] == pending[..n]
    ensures n < |output| && n < |pending| ==> output[n] != pending[n]
  {
    if output == "" || pending == "" || output[0] != pending[0] then 0
    else
      var n := Agreement(output[1..], pending[1..]);
      assert output[..n + 1] == [output[0]] + output[1..][..n];
      assert pending[..n + 1] == [pending[0]] + pending[1..][..n];
      n + 1
  }

  /** What stays pending and what is left to show; an output that disagrees at once clears all. */
  function Remote(pending: string, output: string): (string, string) {
    var n := Agreement(output, pending);
    if output == "" then (pending, output)
    else if n > 0 then (pending[n..], output[n..])
    else ("", output)
  }

  lemma {:induction false} AgreementIsUnique(output: string, pending: string, n: nat)
    requires n <= |output| && n <= |pending| && output[..n] == pending[..n]
    requires n < |output| && n < |pending| ==> output[n] != pending[n]
    ensures n == Agreement(output, pending)
  {
    var m := Agreement(output, pending);
    assert forall i :: 0 <= i < n ==> output[i] == output[..n][i] && pending[i] == pending[..n][i];
    assert forall i :: 0 <= i < m ==> output[i] == output[..m][i] && pending[i] == pending[..m][i];
  }

  /**
   * The common start of the output and of what is pending goes from both, and the rest of each
   * stays; without one, what is pending is given up.
   */
  lemma {:induction false} RemoteExactly(common: string, pending: string, output: string)
    requires pending == "" || output == "" || pending[0] != output[0]
    ensures common != "" ==> Remote(common + pending, common + output) == (pending, output)
    ensures output != "" ==> Remote(pending, output) == ("", output)
    ensures Remote(pending, "") == (pending, "")
  {
    var p, o := common + pending, common + output;
    assert o[..|common|] == common == p[..|common|];
    assert |common| < |o| && |common| < |p| ==> o[|common|] == output[0] && p[|common|] == pending[0];
    AgreementIsUnique(o, p, |common|);
    assert o[|common|..] == output && p[|common|..] == pending;
    if output != "" {
      AgreementIsUnique(output, pending, 0);
    }
  }

  class PredictiveEcho {
    const enabled: bool
    var pending: string

    predicate Valid()
      reads this
    {
      |pending| <= CAP
    }

    constructor (enabled: bool)
      ensures Valid() && this.enabled == enabled && pending == ""
    {
      this.enabled := enabled;
      pending := "";
    }

    /** The result is what goes to the screen. */
    method OnLocalInput(data: string) returns (display: string)
      requires Valid()
      modifies this
      ensures Valid()
      ensures if enabled then pending == Capped(Local(old(pending), data).0) && display == Local(old(pending), data).1
              else pending == old(pending) && display == ""
    {
      display := "";
      if !enabled || data == "" {
        return;
      }
      for i := 0 to |data|
        invariant (pending, display) == Local(old(pending), data[..i])
      {
        var c := data[i];
        assert data[..i + 1][..i] == data[..i];
        if IsErase(c) {
          if pending != "" {
            pending := pending[..|pending| - 1];
            display := display + ERASED;
          }
          continue;
        }
        if IsPrintable(c) {
          pending := pending + [c];
          display := display + [c];
        }
      }
      assert data[..|data|] == data;
      if |pending| > CAP {
        pending := pending[|pending| - CAP..];
      }
    }

    /** The result is what is left of the output to show. */
    method OnRemoteOutput(output: string) returns (shown: string)
      requires Valid()
      modifies this
      ensures Valid()
      ensures if enabled then (pending, shown) == Remote(old(pending), output)
              else pending == old(pending) && shown == output
    {
      shown := output;
      if !enabled || output == "" {
        return;
      }
      var n := 0;
      while n < |output| && n < |pending| && output[n] == pending[n]
        invariant 0 <= n <= |output| && n <= |pending|
        invariant output[..n] == pending[..n]
      {
        n := n + 1;
      }
      AgreementIsUnique(output, pending, n);
      if n > 0 {
        pending := pending[n..];
        shown := shown[n..];
        return;
      }
      pending := "";
    }
  }

  // ---------- sessions ----------

  /** A chunk of keys or a chunk of remote output, in the order in which the lock is taken. */
  datatype Event = Typed(data: string) | Arrived(chunk: string)

  /** What is pending, and all that has gone to the screen. */
  datatype State = State(pending: string, written: string)

  function Next(s: State, e: Event): State {
    match e
    case Typed(data) => State(Capped(Local(s.pending, data).0), s.written + Local(s.pending, data).1)
    case Arrived(chunk) => State(Remote(s.pending, chunk).0, s.written + Remote(s.pending, chunk).1)
  }

  function Run(events: seq<Event>): State {
    if events == [] then State("", "") else Next(Run(events[..|events| - 1]), events[|events| - 1])
  }

  function Printables(s: string): string {
    if s == "" then ""
    else Printables(s[..|s| - 1]) + if IsPrintable(s[|s| - 1]) then [s[|s| - 1]] else ""
  }

  /** The printable keys, which are what a plain echo consists of. */
  function TypedText(events: seq<Event>): string {
    if events == [] then ""
    else
      TypedText(events[..|events| - 1])
      + match events[|events| - 1] { case Typed(data) => Printables(data) case Arrived(_) => "" }
  }

  function RemoteText(events: seq<Event>): string {
    if events == [] then ""
    else
      RemoteText(events[..|events| - 1])
      + match events[|events| - 1] { case Typed(_) => "" case Arrived(chunk) => chunk }
  }

  /** The remote output let through to the screen. */
  function Shown(events: seq<Event>): string {
    if events == [] then ""
    else
      var before := Run(events[..|events| - 1]);
      Shown(events[..|events| - 1])
      + match events[|events| - 1] { case Typed(_) => "" case Arrived(chunk) => Remote(before.pending, chunk).1 }
  }

  /** At all times the remote output is the echo of the first part of what was typed. */
  predicate Faithful(events: seq<Event>) {
    events != [] ==> Faithful(events[..|events| - 1]) && RemoteText(events) <= TypedText(events)
  }

  predicate Eraseless(data: string) {
    forall i :: 0 <= i < |data| ==> !IsErase(data[i])
  }

  /** No key erases, and never are more than 4096 characters without an echo. */
  predicate Modest(events: seq<Event>) {
    events != [] ==>
      && Modest(events[..|events| - 1])
      && |TypedText(events)| - |RemoteText(events)| <= CAP
      && (events[|events| - 1].Typed? ==> Eraseless(events[|events| - 1].data))
  }

  lemma {:induction false} LocalWithoutErase(pending: string, data: string)
    requires Eraseless(data)
    ensures Local(pending, data) == (pending + Printables(data), Printables(data))
  {
    if data == "" {
      assert pending + "" == pending;
    } else {
      LocalWithoutErase(pending, data[..|data| - 1]);
      var c := data[|data| - 1];
      assert !IsErase(c);
      if IsPrintable(c) {
        assert pending + Printables(data[..|data| - 1]) + [c] == pending + (Printables(data[..|data| - 1]) + [c]);
      } else {
        assert Printables(data) == Printables(data[..|data| - 1]);
      }
    }
  }

  /** Output is swallowed whole exactly if it is the start of what is pending. */
  lemma {:induction false} SwallowedExactly(pending: string, chunk: string)
    ensures Remote(pending, chunk).1 == "" <==> chunk <= pending
    ensures chunk <= pending ==> Remote(pending, chunk).0 == pending[|chunk|..]
  {
    var n := Agreement(chunk, pending);
    if chunk <= pending {
      AgreementIsUnique(chunk, pending, |chunk|);
    }
    if Remote(pending, chunk).1 == "" && chunk != "" {
      assert n == |chunk|;
      assert chunk[..n] == chunk;
    }
  }

  /** All that was typed is on the screen, and what is pending is what has no echo yet. */
  predicate InStep(s: State, typed: string, echoed: string) {
    echoed <= typed && s == State(typed[|echoed|..], typed)
  }

  /** Typing keeps in step exactly within the cap. */
  lemma {:induction false} TypedStep(s: State, typed: string, echoed: string, data: string)
    requires InStep(s, typed, echoed) && Eraseless(data)
    ensures InStep(Next(s, Typed(data)), typed + Printables(data), echoed)
       <==> |typed + Printables(data)| - |echoed| <= CAP
  {
    LocalWithoutErase(s.pending, data);
    assert (typed + Printables(data))[|echoed|..] == typed[|echoed|..] + Printables(data);
  }

  lemma {:induction false} ArrivedStep(s: State, typed: string, echoed: string, chunk: string)
    requires InStep(s, typed, echoed)
    ensures echoed + chunk <= typed <==> Remote(s.pending, chunk).1 == ""
    ensures echoed + chunk <= typed ==> InStep(Next(s, Arrived(chunk)), typed, echoed + chunk)
  {
    SwallowedExactly(s.pending, chunk);
    assert typed == echoed + s.pending;
    if echoed + chunk <= typed {
      assert chunk <= s.pending;
      assert typed[|echoed + chunk|..] == s.pending[|chunk|..];
      assert typed + "" == typed;
    }
  }

  /** What is pending is what was typed without what has been echoed; nothing is shown twice. */
  lemma {:induction false} FaithfulEchoIsSwallowed(events: seq<Event>)
    requires Modest(events) && Faithful(events)
    ensures RemoteText(events) <= TypedText(events)
    ensures Run(events).pending == TypedText(events)[|RemoteText(events)|..]
    ensures Run(events).written == TypedText(events) && Shown(events) == ""
  {
    hide Next, Remote;
    if events != [] {
      var before, e := events[..|events| - 1], events[|events| - 1];
      FaithfulEchoIsSwallowed(before);
      var typed, echoed := TypedText(before), RemoteText(before);
      match e
      case Typed(data) => TypedStep(Run(before), typed, echoed, data);
      case Arrived(chunk) => ArrivedStep(Run(before), typed, echoed, chunk);
    }
  }

  /** While few enough characters are without an echo, output is shown exactly if it is no echo. */
  lemma {:induction false} NothingShownExactlyIfFaithful(events: seq<Event>)
    requires Modest(events)
    ensures Shown(events) == "" <==> Faithful(events)
  {
    if events != [] {
      var before, e := events[..|events| - 1], events[|events| - 1];
      NothingShownExactlyIfFaithful(before);
      if Faithful(before) {
        FaithfulEchoIsSwallowed(before);
        var typed, echoed := TypedText(before), RemoteText(before);
        match e
        case Typed(data) =>
          assert RemoteText(events) == echoed && TypedText(events) == typed + Printables(data);
        case Arrived(chunk) =>
          assert TypedText(events) == typed;
          ArrivedStep(Run(before), typed, echoed, chunk);
      }
    }
  }

  // ---------- output after the echo ----------

  function Arrivals(chunks: seq<string>): seq<Event> {
    seq(|chunks|, i requires 0 <= i < |chunks| => Arrived(chunks[i]))
  }

  function Concat(chunks: seq<string>): string {
    if chunks == [] then "" else Concat(chunks[..|chunks| - 1]) + chunks[|chunks| - 1]
  }

  /** What is pending and what is shown after the rest of the echo, when `rest` was pending. */
  lemma {:induction false} TailStep(rest: string, arrived: string, chunk: string)
    requires rest <= arrived + chunk || arrived + chunk <= rest
    ensures var pending := if |arrived| <= |rest| then rest[|arrived|..] else "";
            var total := arrived + chunk;
            Remote(pending, chunk)
              == if |total| <= |rest| then (rest[|total|..], "")
                 else ("", if |arrived| <= |rest| then total[|rest|..] else chunk)
  {
    var pending := if |arrived| <= |rest| then rest[|arrived|..] else "";
    var total := arrived + chunk;
    if |total| <= |rest| {
      assert total <= rest;
      assert chunk == total[|arrived|..] == rest[|arrived|..|total|];
      SwallowedExactly(pending, chunk);
    } else if |arrived| <= |rest| {
      assert rest == total[..|rest|];
      var n := |rest| - |arrived|;
      assert chunk[..n] == total[|arrived|..|rest|] == pending;
      assert pending[..n] == pending;
      AgreementIsUnique(chunk, pending, n);
      assert total[|rest|..] == chunk[n..] && pending[n..] == "";
    }
  }

  /** The state after some of the rest of the echo and a tail. */
  function AfterArrivals(typed: string, rest: string, arrived: string): State {
    if |arrived| <= |rest| then State(rest[|arrived|..], typed) else State("", typed + arrived[|rest|..])
  }

  lemma {:induction false} TailNext(typed: string, rest: string, arrived: string, chunk: string)
    requires rest <= arrived + chunk || arrived + chunk <= rest
    ensures Next(AfterArrivals(typed, rest, arrived), Arrived(chunk)) == AfterArrivals(typed, rest, arrived + chunk)
  {
    hide Remote;
    TailStep(rest, arrived, chunk);
    assert typed + "" == typed;
    if |arrived| > |rest| {
      assert typed + arrived[|rest|..] + chunk == typed + (arrived + chunk)[|rest|..];
    }
  }

  /** Once typing stops, any chunking of the rest of the echo and a tail shows just the tail. */
  lemma {:induction false} TailIsShown(events: seq<Event>, chunks: seq<string>, all: string)
    requires Modest(events) && Faithful(events)
    requires var rest := TypedText(events)[|RemoteText(events)|..];
             rest <= all && Concat(chunks) <= all
    ensures var rest := TypedText(events)[|RemoteText(events)|..];
            Run(events + Arrivals(chunks)) == AfterArrivals(TypedText(events), rest, Concat(chunks))
    decreases |chunks|
  {
    hide Next, AfterArrivals, Modest, Faithful;
    FaithfulEchoIsSwallowed(events);
    if chunks == [] {
      AfterNoArrivals(events);
      assert events + Arrivals(chunks) == events;
    } else {
      var before, chunk := chunks[..|chunks| - 1], chunks[|chunks| - 1];
      TailIsShown(events, before, all);
      var now := events + Arrivals(chunks);
      assert now[..|now| - 1] == events + Arrivals(before) && now[|now| - 1] == Arrived(chunk);
      TailNext(TypedText(events), TypedText(events)[|RemoteText(events)|..], Concat(before), chunk);
    }
  }

  lemma {:induction false} AfterNoArrivals(events: seq<Event>)
    requires Modest(events) && Faithful(events)
    ensures Run(events) == AfterArrivals(TypedText(events), TypedText(events)[|RemoteText(events)|..], "")
  {
    FaithfulEchoIsSwallowed(events);
  }

  /** The screen ends up as without prediction, where it would show the remote output alone. */
  lemma {:induction false} PredictionLeavesNoTrace(events: seq<Event>, chunks: seq<string>, tail: string)
    requires Modest(events) && Faithful(events)
    requires RemoteText(events) + Concat(chunks) == TypedText(events) + tail
    ensures Run(events + Arrivals(chunks)) == State("", RemoteText(events) + Concat(chunks))
  {
    hide Run, Modest, Faithful, Arrivals, TypedText, RemoteText, Concat, Shown;
    FaithfulEchoIsSwallowed(events);
    var typed, echoed, arrived := TypedText(events), RemoteText(events), Concat(chunks);
    var rest := typed[|echoed|..];
    assert arrived == (echoed + arrived)[|echoed|..] == rest + tail;
    TailIsShown(events, chunks, arrived);
    assert AfterArrivals(typed, rest, arrived) == State("", echoed + arrived) by {
      assert arrived[|rest|..] == tail && (|arrived| <= |rest| ==> tail == "" && typed + tail == typed);
    }
  }

  // ---------- the cap, and erasing ----------

  /**
   * From any state in step, keys that bring what is without an echo over the cap cost its start:
   * the first character of the echo is shown again unless it happens to be the first one kept,
   * and the echo in one piece is never swallowed whole.
   */
  lemma {:induction false} CapBreaksTheEcho(s: State, typed: string, echoed: string, data: string)
    requires InStep(s, typed, echoed) && Eraseless(data)
    requires |typed + Printables(data)| - |echoed| > CAP
    ensures var rest := (typed + Printables(data))[|echoed|..];
            var over, s' := |rest| - CAP, Next(s, Typed(data));
            && s'.pending == rest[over..]
            && Remote(s'.pending, rest).1 != ""
            && (rest[over] != rest[0] ==>
                  Next(s', Arrived(rest[..1])) == State("", typed + Printables(data) + rest[..1]))
  {
    LocalWithoutErase(s.pending, data);
    var rest := (typed + Printables(data))[|echoed|..];
    assert rest == s.pending + Printables(data);
    hide Printables, Local;
    var over := |rest| - CAP;
    var kept := rest[over..];
    SwallowedExactly(kept, rest);
    if rest[over] != rest[0] {
      assert kept[0] == rest[over];
      AgreementIsUnique(rest[..1], kept, 0);
    }
  }

  /** The text before the cursor after a display. */
  function Screen(text: string, display: string): string {
    if display == "" then text
    else
      var before := Screen(text, display[..|display| - 1]);
      if display[|display| - 1] as int != 8 then before + [display[|display| - 1]]
      else if before == "" then "" else before[..|before| - 1]
  }

  lemma {:induction false} ScreenCat(text: string, a: string, b: string)
    ensures Screen(text, a + b) == Screen(Screen(text, a), b)
  {
    if b == "" {
      assert a + b == a;
    } else {
      assert (a + b)[..|a + b| - 1] == a + b[..|b| - 1];
      ScreenCat(text, a, b[..|b| - 1]);
    }
  }

  /** Keys in one call do what they do in two. */
  lemma {:induction false} LocalCat(pending: string, a: string, b: string)
    ensures var first := Local(pending, a);
            var second := Local(first.0, b);
            Local(pending, a + b) == (second.0, first.1 + second.1)
  {
    if b == "" {
      assert a + b == a && Local(pending, a).1 + "" == Local(pending, a).1;
    } else {
      var n := |b| - 1;
      assert (a + b)[..|a + b| - 1] == a + b[..n] && (a + b)[|a + b| - 1] == b[n];
      LocalCat(pending, a, b[..n]);
      var first := Local(pending, a);
      var second := Local(first.0, b[..n]);
      assert first.1 + second.1 + ERASED == first.1 + (second.1 + ERASED);
      assert first.1 + second.1 + [b[n]] == first.1 + (second.1 + [b[n]]);
    }
  }

  /**
   * One key: a printable one joins what is pending and is displayed, backspace and delete take the
   * last one back and rub it out, and any other is ignored.
   */
  lemma {:induction false} OneKey(pending: string, c: char)
    ensures 32 <= c as int <= 126 ==> Local(pending, [c]) == (pending + [c], [c])
    ensures c as int == 8 || c as int == 127 ==>
              Local(pending, [c]) == if pending == "" then ("", "")
                                     else (pending[..|pending| - 1], [8 as char, ' ', 8 as char])
    ensures c as int != 8 && c as int != 127 && !(32 <= c as int <= 126) ==> Local(pending, [c]) == (pending, "")
  {
    assert [c][..0] == "" && Local(pending, "") == (pending, "");
    assert "" + [c] == [c] && "" + ERASED == ERASED;
  }

  /** Printable keys and then as many erasing ones. */
  predicate TakenBack(data: string) {
    data == "" || (|data| >= 2 && IsPrintable(data[0]) && IsErase(data[|data| - 1]) && TakenBack(data[1..|data| - 1]))
  }

  /** Keys that are all erased again leave what is pending, and the screen, as they were. */
  lemma {:induction false} ErasingUndoesTyping(pending: string, data: string, text: string)
    requires TakenBack(data)
    ensures Local(pending, data).0 == pending
    ensures Screen(text + pending, Local(pending, data).1) == text + pending
    decreases |data|
  {
    if data != "" {
      var c, inner, e := data[0], data[1..|data| - 1], data[|data| - 1];
      ErasingUndoesTyping(pending + [c], inner, text);
      OneKey(pending, c);
      OneKey(pending + [c], e);
      LocalCat(pending, [c], inner);
      LocalCat(pending, [c] + inner, [e]);
      assert data == [c] + inner + [e];
      assert (pending + [c])[..|pending|] == pending;
    }
    ScreenShowsPending(text, pending, data);
  }

  /** Whatever is typed and erased, the cursor stands behind what is pending before the cap. */
  lemma {:induction false} ScreenShowsPending(text: string, pending: string, data: string)
    ensures Screen(text + pending, Local(pending, data).1) == text + Local(pending, data).0
  {
    if data != "" {
      ScreenShowsPending(text, pending, data[..|data| - 1]);
      var (before, display) := Local(pending, data[..|data| - 1]);
      var c := data[|data| - 1];
      if IsErase(c) {
        if before != "" {
          ScreenCat(text + pending, display, ERASED);
          Erases(text + before);
        }
      } else if IsPrintable(c) {
        ScreenCat(text + pending, display, [c]);
        assert [c][..0] == "";
        assert text + before + [c] == text + (before + [c]);
      }
    }
  }

  lemma {:induction false} Erases(text: string)
    requires text != ""
    ensures Screen(text, ERASED) == text[..|text| - 1]
  {
    assert ERASED[..2] == [8 as char, ' '] && [8 as char, ' '][..1] == [8 as char] && [8 as char][..0] == "";
    var once := text[..|text| - 1];
    assert Screen(text, [8 as char]) == once && Screen(text, [8 as char, ' ']) == once + [' '];
    assert (once + [' '])[..|once|] == once;
  }
}
