/** LocalForward values, and the tunnel arguments they are turned into. */
module LocalForwards {
  import opened Bytes
  import opened Strings
  import opened TunnelArgs

  datatype Forward = Forward(bindHost: string, bindPort: string, destHost: string, destPort: string)

  function ParseHostPort(input: string): Option<(string, string)> {
    if input == "" then None
    else if input[0] == '[' then
      match IndexOf(input, ']')
      case None => None
      case Some(close) =>
        if close + 2 > |input| || input[close + 1] != ':' then None
        else Some((input[1..close], input[close + 2..]))
    else
      match LastIndexOf(input, ':')
      case None => None
      case Some(colon) =>
        if ':' in input[..colon] then None else Some((input[..colon], input[colon + 1..]))
  }

  function NormalizeAddress(host: string): string {
    if ':' in host && host[0] != '[' then "[" + host + "]" else host
  }

  const DEFAULT_BIND: string := "127.0.0.1"

  /** What a value is taken to say, if it is accepted. */
  function Fields(value: string): Option<Forward> {
    var parts := Words(value);
    if |parts| < 2 || |parts| > 3 then None
    else
      var bind := if ':' in parts[0] then ParseHostPort(parts[0]) else Some(("", parts[0]));
      var dest := if |parts| == 2 then ParseHostPort(parts[1]) else Some((parts[1], parts[2]));
      if bind.None? || !Numeric(bind.value.1) || dest.None? || !Numeric(dest.value.1) then None
      else
        Some(Forward(if bind.value.0 == "" then DEFAULT_BIND else bind.value.0, bind.value.1,
                     dest.value.0, dest.value.1))
  }

  function Written(f: Forward): string {
    NormalizeAddress(f.bindHost) + ":" + f.bindPort + ":" + NormalizeAddress(f.destHost) + ":" + f.destPort
  }

  function NormalizeLocalForward(value: string): Option<string> {
    match Fields(value)
    case None => None
    case Some(f) => Some(Written(f))
  }

  // ---------- reading host:port ----------

  /** The two spellings of a host and a port. */
  predicate Spells(input: string, host: string, port: string) {
    || (input == "[" + host + "]:" + port && ']' !in host)
    || (input == host + ":" + port && ':' !in host && ':' !in port && (host == "" || host[0] != '['))
  }

  lemma {:induction false} HostPortExactly(input: string, host: string, port: string)
    ensures ParseHostPort(input) == Some((host, port)) <==> Spells(input, host, port)
  {
    if ParseHostPort(input) == Some((host, port)) {
      if input[0] == '[' {
        assert input == "[" + host + "]:" + port;
        assert ']' !in host by {
          assert forall i :: 0 <= i < |host| ==> host[i] == input[..|host| + 1][i + 1];
        }
      } else {
        assert input == host + ":" + port;
      }
    }
    if input == "[" + host + "]:" + port && ']' !in host {
      SpelledInBrackets(host, port);
    } else if Spells(input, host, port) {
      SpelledPlainly(host, port);
    }
  }

  lemma {:induction false} SpelledInBrackets(host: string, port: string)
    requires ']' !in host
    ensures ParseHostPort("[" + host + "]:" + port) == Some((host, port))
  {
    var input := "[" + host + "]:" + port;
    assert input == ("[" + host) + [']'] + (":" + port);
    IndexOfCat("[" + host, ']', ":" + port);
    var close := |host| + 1;
    assert input[1..close] == host && input[close + 2..] == port;
  }

  lemma {:induction false} SpelledPlainly(host: string, port: string)
    requires ':' !in host && ':' !in port && (host == "" || host[0] != '[')
    ensures ParseHostPort(host + ":" + port) == Some((host, port))
  {
    var input := host + ":" + port;
    LastIndexOfCat(host, ':', port);
    assert input[..|host|] == host && input[|host| + 1..] == port;
  }

  /** An accepted value written with two words is read as what they spell. */
  lemma {:induction false} FieldsOfSpelled(bind: string, b: string, p: string, dest: string, h: string, q: string)
    requires Spells(bind, b, p) && Numeric(p) && Spells(dest, h, q) && Numeric(q)
    requires Spaceless(bind) && Spaceless(dest)
    ensures Fields(Join([bind, dest])) == Some(Forward(if b == "" then DEFAULT_BIND else b, p, h, q))
  {
    WordsOfJoin([bind, dest]);
    assert ':' in bind by {
      assert bind[if bind == "[" + b + "]:" + p then |b| + 2 else |b|] == ':';
    }
    HostPortExactly(bind, b, p);
    HostPortExactly(dest, h, q);
  }

  /** A bare port listens on the default address; three words name the destination apart. */
  lemma {:induction false} FieldsOfBarePort(port: string, dest: string, h: string, q: string)
    requires Numeric(port) && Numeric(q) && h != "" && Spaceless(h)
    ensures Spells(dest, h, q) && Spaceless(dest) ==>
              Fields(Join([port, dest])) == Some(Forward(DEFAULT_BIND, port, h, q))
    ensures Fields(Join([port, h, q])) == Some(Forward(DEFAULT_BIND, port, h, q))
  {
    assert Spaceless(port) && Spaceless(q) && ':' !in port;
    WordsOfJoin([port, h, q]);
    if Spells(dest, h, q) && Spaceless(dest) {
      WordsOfJoin([port, dest]);
      HostPortExactly(dest, h, q);
    }
  }

  /** Values of any other number of words, and ports that are no number, are refused. */
  lemma {:induction false} OthersAreRefused(ws: seq<string>)
    requires forall w :: w in ws ==> w != "" && Spaceless(w)
    ensures |ws| < 2 || |ws| > 3 ==> NormalizeLocalForward(Join(ws)) == None
    ensures |ws| >= 2 && ':' !in ws[0] && !Numeric(ws[0]) ==> NormalizeLocalForward(Join(ws)) == None
    ensures |ws| == 3 && !Numeric(ws[2]) ==> NormalizeLocalForward(Join(ws)) == None
    ensures forall b, p :: |ws| >= 2 && ':' in ws[0] && Spells(ws[0], b, p) && !Numeric(p) ==>
              NormalizeLocalForward(Join(ws)) == None
    ensures forall h, q :: |ws| == 2 && Spells(ws[1], h, q) && !Numeric(q) ==>
              NormalizeLocalForward(Join(ws)) == None
  {
    WordsOfJoin(ws);
    hide Words, Spells, ParseHostPort, Numeric;
    forall b, p | |ws| >= 2 && Spells(ws[0], b, p)
      ensures ParseHostPort(ws[0]) == Some((b, p))
    {
      HostPortExactly(ws[0], b, p);
    }
    forall h, q | |ws| == 2 && Spells(ws[1], h, q)
      ensures ParseHostPort(ws[1]) == Some((h, q))
    {
      HostPortExactly(ws[1], h, q);
    }
  }

  /** Only a host with a colon and no bracket is given brackets. */
  lemma {:induction false} BracketsWhereNeeded(host: string)
    ensures ':' !in host ==> NormalizeAddress(host) == host
    ensures ':' in host && host[0] != '[' ==> NormalizeAddress(host) == "[" + host + "]"
    ensures ':' in host && host[0] == '[' ==> NormalizeAddress(host) == host
  {
  }

  /** The argument as it reads, for hosts that need no brackets. */
  lemma {:induction false} WrittenPlainly(port: string, dest: string, h: string, q: string)
    requires Numeric(port) && Numeric(q) && h != "" && Spaceless(h) && ':' !in h && h[0] != '['
    requires dest == h + ":" + q
    ensures NormalizeLocalForward(Join([port, dest])) == Some("127.0.0.1:" + port + ":" + h + ":" + q)
  {
    NumericIsPlain(q);
    assert Spells(dest, h, q) && Spaceless(dest) by {
      assert forall i :: 0 <= i < |q| ==> !IsSpace(q[i]);
    }
    FieldsOfBarePort(port, dest, h, q);
    hide Fields, Spells, Join;
    assert "127.0.0.1" + ":" + port == "127.0.0.1:" + port;
  }

  // ---------- reading the result back ----------

  /** A host without one pair of brackets around it. */
  function Bare(host: string): string {
    if |host| >= 2 && host[0] == '[' && host[|host| - 1] == ']' then host[1..|host| - 1] else host
  }

  lemma {:induction false} ScanAddress(st: Scanner, host: string)
    requires !st.inBrackets && Bracketless(Bare(host))
    ensures Scan(st, NormalizeAddress(host)) == st.(current := st.current + Bare(host))
  {
    var bare := Bare(host);
    if bare != host {
      assert host == "[" + bare + "]";
      ScanBracketed(st, bare);
    } else if ':' in host {
      assert host[0] in host;
      ScanBracketed(st, host);
    } else {
      ScanPlain(st, host);
    }
  }

  lemma {:induction false} NumericIsPlain(s: string)
    requires Numeric(s)
    ensures Bracketless(s) && ':' !in s && ',' !in s
  {
  }

  /** A host, a port and the colons around them, from a part that is still empty. */
  lemma {:induction false} ScanHostPort(parts: seq<string>, host: string, port: string)
    requires Bracketless(Bare(host)) && Numeric(port)
    ensures Scan(Scanner(parts, "", false), NormalizeAddress(host) + ":" + port)
         == Scanner(parts + [Bare(host)], port, false)
  {
    var st, address := Scanner(parts, "", false), NormalizeAddress(host);
    NumericIsPlain(port);
    assert address + ":" + port == address + (":" + port) && (":" + port)[1..] == port;
    ScanCat(st, address, ":" + port);
    ScanAddress(st, host);
    ScanPlain(Scanner(parts + [Bare(host)], "", false), port);
    assert "" + Bare(host) == Bare(host) && "" + port == port;
  }

  lemma {:induction false} ScanWritten(f: Forward)
    requires Numeric(f.bindPort) && Numeric(f.destPort)
    requires Bracketless(Bare(f.bindHost)) && Bracketless(Bare(f.destHost))
    ensures SshParts(Written(f)) == Ok([Bare(f.bindHost), f.bindPort, Bare(f.destHost), f.destPort])
  {
    var first := NormalizeAddress(f.bindHost) + ":" + f.bindPort;
    var second := NormalizeAddress(f.destHost) + ":" + f.destPort;
    assert Written(f) == first + (":" + second) && (":" + second)[1..] == second;
    ScanCat(Scanner([], "", false), first, ":" + second);
    ScanHostPort([], f.bindHost, f.bindPort);
    var st := Scanner([] + [Bare(f.bindHost)], f.bindPort, false);
    assert ScanOne(st, ':') == Scanner([Bare(f.bindHost), f.bindPort], "", false);
    assert Scan(st, ":" + second) == Scan(ScanOne(st, ':'), second);
    ScanHostPort([Bare(f.bindHost), f.bindPort], f.destHost, f.destPort);
    assert [Bare(f.bindHost), f.bindPort] + [Bare(f.destHost)] + [f.destPort]
        == [Bare(f.bindHost), f.bindPort, Bare(f.destHost), f.destPort];
  }

  /** The four parts are read back exactly if no host keeps a bracket. */
  lemma {:induction false} NormalizedIsReadBack(value: string)
    ensures NormalizeLocalForward(value).Some? ==>
              var f := Fields(value).value;
              (SshParts(NormalizeLocalForward(value).value)
                == Ok([Bare(f.bindHost), f.bindPort, Bare(f.destHost), f.destPort])
               <==> Bracketless(Bare(f.bindHost)) && Bracketless(Bare(f.destHost)))
  {
    if Fields(value).Some? {
      var f := Fields(value).value;
      hide SshParts, Written, Bracketless, Bare;
      if Bracketless(Bare(f.bindHost)) && Bracketless(Bare(f.destHost)) {
        ScanWritten(f);
      }
      PartsAreBracketless(Written(f));
    }
  }

  lemma {:induction false} PartsAreBracketless(input: string)
    ensures SshParts(input).Ok? ==>
              |SshParts(input).value| == 4 && forall p :: p in SshParts(input).value ==> Bracketless(p)
  {
    ScanDropsBrackets(Scanner([], "", false), input);
  }

  // ---------- the request it becomes ----------

  /** Fit for the int32 port of a request. */
  predicate Fits(port: string) {
    Numeric(port) && DigitsValue(port) <= INT_MAX
  }

  function RequestFor(f: Forward): (r: Request)
    requires Numeric(f.bindPort) && Numeric(f.destPort)
  {
    Request(Endpoint(Some(Bare(f.bindHost)), Some(DigitsValue(f.bindPort))),
            Endpoint(Some(Bare(f.destHost)), Some(DigitsValue(f.destPort))), None)
  }

  /** Three colons leave too many pieces for a pair. */
  lemma {:induction false} WrittenHasManyPieces(f: Forward)
    requires Numeric(f.bindPort) && Numeric(f.destPort)
    ensures |Pieces(Written(f), ':')| > 2
  {
    var first, second := NormalizeAddress(f.bindHost), NormalizeAddress(f.destHost);
    var end := f.destPort;
    assert Written(f) == first + ":" + (f.bindPort + ":" + (second + ":" + end));
    NumericIsPlain(end);
    PiecesPast(second, ':', end, 1);
    PiecesPast(f.bindPort, ':', second + ":" + end, 2);
    PiecesPast(first, ':', f.bindPort + ":" + (second + ":" + end), 3);
  }

  /** Text and a delimiter in front add a piece or more. */
  lemma {:induction false} PiecesPast(a: string, delim: char, b: string, n: nat)
    requires |Pieces(b, delim)| >= n
    ensures |Pieces(a + [delim] + b, delim)| >= n + 1
    decreases |a|
  {
    match IndexOf(a, delim)
    case None =>
      PiecesCat(a, delim, b);
    case Some(k) =>
      var rest := a[k + 1..];
      assert a + [delim] + b == a[..k] + [delim] + (rest + [delim] + b);
      PiecesCat(a[..k], delim, rest + [delim] + b);
      PiecesPast(rest, delim, b, n);
  }

  /** A comma anywhere but at the end makes a list. */
  lemma {:induction false} ListExactly(s: string)
    requires s != "" && s[|s| - 1] != ','
    ensures |Pieces(s, ',')| > 1 <==> ',' in s
  {
    match IndexOf(s, ',')
    case None =>
    case Some(k) =>
      var b := s[k + 1..];
      assert s == s[..k] + [','] + b && b != "";
      PiecesPast(s[..k], ',', b, 1);
  }

  lemma {:induction false} WrittenIsList(f: Forward)
    requires Numeric(f.destPort)
    ensures |Pieces(Written(f), ',')| > 1 <==> ',' in Written(f)
  {
    hide Pieces;
    NumericIsPlain(f.destPort);
    var s, q := Written(f), f.destPort;
    assert s[|s| - 1] == q[|q| - 1] && q[|q| - 1] in q;
    ListExactly(s);
  }

  /** A comma in the argument is a comma in one of its hosts. */
  lemma {:induction false} CommaComesFromHost(f: Forward)
    requires Numeric(f.bindPort) && Numeric(f.destPort)
    ensures ',' in Written(f) <==> ',' in f.bindHost || ',' in f.destHost
  {
    NumericIsPlain(f.bindPort);
    NumericIsPlain(f.destPort);
    assert forall h :: ',' in NormalizeAddress(h) <==> ',' in h;
  }

  /** The argument takes the four-part branch exactly if no host has a comma. */
  lemma {:induction false} FourPartBranchExactly(value: string)
    ensures NormalizeLocalForward(value).Some? ==>
              var f, out := Fields(value).value, NormalizeLocalForward(value).value;
              (|Pieces(out, ',')| <= 1 && |Pieces(out, ':')| > 2 <==> ',' !in f.bindHost && ',' !in f.destHost)
  {
    if Fields(value).Some? {
      var f := Fields(value).value;
      WrittenHasManyPieces(f);
      WrittenIsList(f);
      CommaComesFromHost(f);
    }
  }

  /** What a host and a port must be for the tunnel parser to understand them. */
  predicate Understood(host: string, port: string) {
    Bracketless(Bare(host)) && ',' !in host && Fits(port)
  }

  lemma {:induction false} FourPartsBecome(bind: string, p: string, dest: string, q: string)
    requires Numeric(p) && Numeric(q)
    ensures var r := FourPartRequest([bind, p, dest, q]);
            && (r.Ok? <==> Fits(p) && Fits(q))
            && (r.Ok? ==> r.value == [Request(Endpoint(Some(bind), Some(DigitsValue(p))),
                                              Endpoint(Some(dest), Some(DigitsValue(q))), None)])
  {
    StoiOfDigits(p);
    StoiOfDigits(q);
  }

  /** Without a comma in a host it is the four-part form that is read. */
  lemma {:induction false} WrittenIsFourPart(f: Forward)
    requires Numeric(f.bindPort) && Numeric(f.destPort)
    requires ',' !in f.bindHost && ',' !in f.destHost
    ensures Requests(Written(f))
         == match SshParts(Written(f)) { case Err(e) => Err(e) case Ok(parts) => FourPartRequest(parts) }
  {
    hide Pieces, Written, SshParts, FourPartRequest, AllPairs, PairRequests;
    WrittenHasManyPieces(f);
    WrittenIsList(f);
    CommaComesFromHost(f);
  }

  /** A request made of four parts names no host with a bracket. */
  lemma {:induction false} FourPartsNameBare(parts: seq<string>)
    requires |parts| == 4 && forall p :: p in parts ==> Bracketless(p)
    ensures var r := FourPartRequest(parts);
            r.Ok? ==> forall q :: q in r.value ==>
              && q.source.name.Some? && Bracketless(q.source.name.value)
              && q.destination.name.Some? && Bracketless(q.destination.name.value)
  {
    hide Bracketless, Port;
  }

  lemma {:induction false} RequestOfWritten(f: Forward)
    requires Numeric(f.bindPort) && Numeric(f.destPort)
    requires ',' !in f.bindHost && ',' !in f.destHost
    ensures Requests(Written(f)) == Ok([RequestFor(f)])
       <==> Understood(f.bindHost, f.bindPort) && Understood(f.destHost, f.destPort)
  {
    hide Requests, SshParts, Written, Bracketless, FourPartRequest, Numeric, Bare;
    WrittenIsFourPart(f);
    if Bracketless(Bare(f.bindHost)) && Bracketless(Bare(f.destHost)) {
      ScanWritten(f);
      FourPartsBecome(Bare(f.bindHost), f.bindPort, Bare(f.destHost), f.destPort);
    } else {
      PartsAreBracketless(Written(f));
      if SshParts(Written(f)).Ok? {
        FourPartsNameBare(SshParts(Written(f)).value);
        assert RequestFor(f) in [RequestFor(f)];
      }
    }
  }

  /** The tunnel an accepted value asks for is the one requested exactly under that condition. */
  lemma {:induction false} ForwardBecomesRequest(value: string)
    ensures NormalizeLocalForward(value).Some? ==>
              var f := Fields(value).value;
              && Numeric(f.bindPort) && Numeric(f.destPort)
              && (Requests(NormalizeLocalForward(value).value) == Ok([RequestFor(f)])
                  <==> Understood(f.bindHost, f.bindPort) && Understood(f.destHost, f.destPort))
  {
    if Fields(value).None? {
      return;
    }
    var f := Fields(value).value;
    if ',' in f.bindHost || ',' in f.destHost {
      FourPartBranchExactly(value);
      WrittenHasManyPieces(f);
      PairsNeverNameBoth(Pieces(Written(f), ','));
      var pairs := AllPairs(Pieces(Written(f), ','));
      assert RequestFor(f) in [RequestFor(f)];
      assert pairs != Ok([RequestFor(f)]);
    } else {
      RequestOfWritten(f);
    }
  }

  /** From the words of the file to the request, IPv6 included. */
  lemma {:induction false} SpelledForwardIsRequested(
    bind: string, b: string, p: string, dest: string, h: string, q: string)
    requires Spells(bind, b, p) && Spaceless(bind) && Fits(p) && Bracketless(b) && ',' !in b
    requires Spells(dest, h, q) && Spaceless(dest) && Fits(q) && Bracketless(h) && ',' !in h
    ensures var out := NormalizeLocalForward(Join([bind, dest]));
            && out.Some?
            && Requests(out.value)
               == Ok([Request(Endpoint(Some(if b == "" then DEFAULT_BIND else b), Some(DigitsValue(p))),
                              Endpoint(Some(h), Some(DigitsValue(q))), None)])
  {
    hide Spells, Fields, Requests, Written, Join;
    FieldsOfSpelled(bind, b, p, dest, h, q);
    ForwardBecomesRequest(Join([bind, dest]));
    assert Bare(b) == b && Bare(h) == h && Bare(DEFAULT_BIND) == DEFAULT_BIND by {
      assert |b| > 0 ==> b[0] in b;
      assert |h| > 0 ==> h[0] in h;
    }
  }
}
