/** Tunnel arguments: four ssh-style parts, or pairs of ports, port ranges and names. */
module TunnelArgs {
  import opened Bytes
  import opened Strings

  datatype Error =
    | TooFewParts | TooManyParts | NeedsTwoParts | LengthsDiffer | OneSidedRange
    | BadNumber | NumberTooBig | BrokenRange

  datatype Result<+T> = Ok(value: T) | Err(error: Error)

  /** Fields that were never set are None. */
  datatype Endpoint = Endpoint(name: Option<string>, port: Option<int>)

  datatype Request = Request(source: Endpoint, destination: Endpoint, variable: Option<string>)

  // ---------- the four-part form ----------

  datatype Scanner = Scanner(parts: seq<string>, current: string, inBrackets: bool)

  function ScanOne(st: Scanner, c: char): Scanner {
    if c == '[' then st.(inBrackets := true)
    else if c == ']' then st.(inBrackets := false)
    else if c == ':' && !st.inBrackets then st.(parts := st.parts + [st.current], current := "")
    else st.(current := st.current + [c])
  }

  function Scan(st: Scanner, s: string): Scanner
    decreases |s|
  {
    if s == "" then st else Scan(ScanOne(st, s[0]), s[1..])
  }

  function SshParts(input: string): Result<seq<string>> {
    var st := Scan(Scanner([], "", false), input);
    var parts := st.parts + [st.current];
    if |parts| < 4 then Err(TooFewParts) else if |parts| > 4 then Err(TooManyParts) else Ok(parts)
  }

  method ParseSshTunnelArg(input: string) returns (r: Result<seq<string>>)
    ensures r == SshParts(input)
  {
    var inBrackets, current, parts := false, "", [];
    for i := 0 to |input|
      invariant Scan(Scanner([], "", false), input) == Scan(Scanner(parts, current, inBrackets), input[i..])
    {
      var c := input[i];
      assert input[i..][1..] == input[i + 1..];
      if c == '[' {
        inBrackets := true;
        continue;
      }
      if c == ']' {
        inBrackets := false;
        continue;
      }
      if c == ':' && !inBrackets {
        parts, current := parts + [current], "";
        continue;
      }
      current := current + [c];
    }
    parts := parts + [current];
    if |parts| < 4 {
      return Err(TooFewParts);
    }
    if |parts| > 4 {
      return Err(TooManyParts);
    }
    return Ok(parts);
  }

  lemma {:induction false} ScanCat(st: Scanner, a: string, b: string)
    ensures Scan(st, a + b) == Scan(Scan(st, a), b)
    decreases |a|
  {
    if a == "" {
      assert a + b == b;
    } else {
      assert (a + b)[1..] == a[1..] + b;
      ScanCat(ScanOne(st, a[0]), a[1..], b);
    }
  }

  predicate Bracketless(s: string) {
    '[' !in s && ']' !in s
  }

  /** Text without brackets is taken as it is, colons too when inside brackets. */
  lemma {:induction false} ScanPlain(st: Scanner, s: string)
    requires Bracketless(s) && (st.inBrackets || ':' !in s)
    ensures Scan(st, s) == st.(current := st.current + s)
    decreases |s|
  {
    if s == "" {
      assert st.current + s == st.current;
    } else {
      ScanPlain(ScanOne(st, s[0]), s[1..]);
      assert st.current + [s[0]] + s[1..] == st.current + s;
    }
  }

  lemma {:induction false} ScanBracketed(st: Scanner, s: string)
    requires Bracketless(s) && !st.inBrackets
    ensures Scan(st, "[" + s + "]") == st.(current := st.current + s)
  {
    var inside := st.(inBrackets := true);
    assert "[" + s + "]" == ['['] + (s + "]");
    assert (['['] + (s + "]"))[1..] == s + "]";
    ScanCat(inside, s, "]");
    ScanPlain(inside, s);
    assert "]"[1..] == "";
  }

  /** No part keeps a bracket. */
  lemma {:induction false} ScanDropsBrackets(st: Scanner, s: string)
    requires Bracketless(st.current) && forall p :: p in st.parts ==> Bracketless(p)
    ensures Bracketless(Scan(st, s).current) && forall p :: p in Scan(st, s).parts ==> Bracketless(p)
    decreases |s|
  {
    if s != "" {
      ScanDropsBrackets(ScanOne(st, s[0]), s[1..]);
    }
  }

  function Colons(parts: seq<string>): string
    requires parts != []
  {
    if |parts| == 1 then parts[0] else parts[0] + ":" + Colons(parts[1..])
  }

  lemma {:induction false} ScanColons(before: seq<string>, parts: seq<string>)
    requires parts != [] && forall p :: p in parts ==> Bracketless(p) && ':' !in p
    ensures var st := Scan(Scanner(before, "", false), Colons(parts)); st.parts + [st.current] == before + parts
    decreases |parts|
  {
    hide Scan;
    var st := Scanner(before, "", false);
    assert parts[0] in parts && "" + parts[0] == parts[0];
    ScanPlain(st, parts[0]);
    if |parts| == 1 {
      assert [parts[0]] == parts;
    } else {
      assert forall p :: p in parts[1..] ==> p in parts;
      ScanColons(before + [parts[0]], parts[1..]);
      PastColon(before, parts[0], Colons(parts[1..]));
      assert before + [parts[0]] + parts[1..] == before + parts;
    }
  }

  lemma {:induction false} PastColon(before: seq<string>, part: string, rest: string)
    requires Bracketless(part) && ':' !in part
    ensures Scan(Scanner(before, "", false), part + ":" + rest) == Scan(Scanner(before + [part], "", false), rest)
  {
    var st := Scanner(before, "", false);
    assert part + ":" + rest == part + (":" + rest) && (":" + rest)[1..] == rest && "" + part == part;
    ScanCat(st, part, ":" + rest);
    ScanPlain(st, part);
  }

  /** Plain parts between colons are taken exactly if there are four. */
  lemma {:induction false} FourPartsExactly(parts: seq<string>)
    requires parts != [] && forall p :: p in parts ==> Bracketless(p) && ':' !in p
    ensures SshParts(Colons(parts))
         == if |parts| < 4 then Err(TooFewParts) else if |parts| > 4 then Err(TooManyParts) else Ok(parts)
  {
    ScanColons([], parts);
    hide Scan, Colons;
    assert [] + parts == parts;
  }

  // ---------- pairs ----------

  predicate NumericOrRange(s: string) {
    forall i :: 0 <= i < |s| ==> IsDigit(s[i]) || s[i] == '-'
  }

  function Port(s: string): Result<int> {
    match Stoi(s)
    case Number(n) => Ok(n)
    case NotANumber => Err(BadNumber)
    case TooBig => Err(NumberTooBig)
  }

  /** Both ends of a range; the program reads past the pieces when there is only one. */
  function Ends(s: string): Result<(int, int)> {
    var pieces := Pieces(s, '-');
    if |pieces| < 2 then Err(BrokenRange)
    else
      match Port(pieces[0])
      case Err(e) => Err(e)
      case Ok(first) =>
        match Port(pieces[1])
        case Err(e) => Err(e)
        case Ok(last) => Ok((first, last))
  }

  function PortPair(from: int, to: int): Request {
    Request(Endpoint(Some("localhost"), Some(from)), Endpoint(None, Some(to)), None)
  }

  function PortPairs(from: int, to: int, n: nat): (r: seq<Request>)
    ensures |r| == n && forall i :: 0 <= i < n ==> r[i] == PortPair(from + i, to + i)
  {
    seq(n, i => PortPair(from + i, to + i))
  }

  function PairRequests(parts: seq<string>): Result<seq<Request>> {
    if |parts| < 2 then Err(NeedsTwoParts)
    else if !NumericOrRange(parts[0]) && !NumericOrRange(parts[1]) then
      Ok([Request(Endpoint(None, None), Endpoint(Some(parts[1]), None), Some(parts[0]))])
    else if '-' in parts[0] && '-' in parts[1] then
      match Ends(parts[0])
      case Err(e) => Err(e)
      case Ok((from, fromEnd)) =>
        match Ends(parts[1])
        case Err(e) => Err(e)
        case Ok((to, toEnd)) =>
          if fromEnd - from != toEnd - to then Err(LengthsDiffer)
          else Ok(PortPairs(from, to, if fromEnd < from then 0 else fromEnd - from + 1))
    else if '-' in parts[0] || '-' in parts[1] then Err(OneSidedRange)
    else
      match Port(parts[0])
      case Err(e) => Err(e)
      case Ok(from) =>
        match Port(parts[1])
        case Err(e) => Err(e)
        case Ok(to) => Ok([PortPair(from, to)])
  }

  /** The loop over a range; a length below one pushes nothing. */
  method PushPairs(from: int, to: int, length: int) returns (out: seq<Request>)
    ensures out == PortPairs(from, to, if length < 0 then 0 else length)
  {
    out := [];
    var i := 0;
    while i < length
      invariant 0 <= i && (i <= length || i == 0)
      invariant out == PortPairs(from, to, i)
    {
      out := out + [PortPair(from + i, to + i)];
      i := i + 1;
    }
  }

  method ProcessUtStyleArg(sourceDest: seq<string>) returns (r: Result<seq<Request>>)
    ensures r == PairRequests(sourceDest)
  {
    hide Ends, Port, NumericOrRange, PortPairs;
    if |sourceDest| < 2 {
      return Err(NeedsTwoParts);
    }
    var source, dest := sourceDest[0], sourceDest[1];
    if !NumericOrRange(source) && !NumericOrRange(dest) {
      return Ok([Request(Endpoint(None, None), Endpoint(Some(dest), None), Some(source))]);
    }
    var sourceRange, destRange := '-' in source, '-' in dest;
    if sourceRange && destRange {
      var sourceEnds, destEnds := Ends(source), Ends(dest);
      if sourceEnds.Err? {
        return Err(sourceEnds.error);
      }
      if destEnds.Err? {
        return Err(destEnds.error);
      }
      var (from, fromEnd) := sourceEnds.value;
      var (to, toEnd) := destEnds.value;
      if fromEnd - from != toEnd - to {
        return Err(LengthsDiffer);
      }
      var out := PushPairs(from, to, fromEnd - from + 1);
      return Ok(out);
    }
    if sourceRange || destRange {
      return Err(OneSidedRange);
    }
    var from := Port(source);
    if from.Err? {
      return Err(from.error);
    }
    var to := Port(dest);
    return if to.Err? then Err(to.error) else Ok([PortPair(from.value, to.value)]);
  }

  /** The pairs of a list, or the first error. */
  function AllPairs(parts: seq<string>): Result<seq<Request>> {
    if parts == [] then Ok([])
    else
      match AllPairs(parts[..|parts| - 1])
      case Err(e) => Err(e)
      case Ok(before) =>
        match PairRequests(Pieces(parts[|parts| - 1], ':'))
        case Err(e) => Err(e)
        case Ok(last) => Ok(before + last)
  }

  function FourPartRequest(parts: seq<string>): Result<seq<Request>>
    requires |parts| == 4
  {
    match Port(parts[1])
    case Err(e) => Err(e)
    case Ok(from) =>
      match Port(parts[3])
      case Err(e) => Err(e)
      case Ok(to) =>
        Ok([Request(Endpoint(Some(parts[0]), Some(from)), Endpoint(Some(parts[2]), Some(to)), None)])
  }

  function Requests(input: string): Result<seq<Request>> {
    var commaParts, sourceDest := Pieces(input, ','), Pieces(input, ':');
    if |commaParts| > 1 then AllPairs(commaParts)
    else if |sourceDest| <= 2 then PairRequests(sourceDest)
    else
      match SshParts(input)
      case Err(e) => Err(e)
      case Ok(parts) => FourPartRequest(parts)
  }

  lemma {:induction false} AllPairsFails(parts: seq<string>, n: nat)
    requires n <= |parts| && AllPairs(parts[..n]).Err?
    ensures AllPairs(parts) == AllPairs(parts[..n])
    decreases |parts| - n
  {
    if n == |parts| {
      assert parts[..n] == parts;
    } else {
      assert parts[..n + 1][..n] == parts[..n];
      AllPairsFails(parts, n + 1);
    }
  }

  method ParseRangesToRequests(input: string) returns (r: Result<seq<Request>>)
    ensures r == Requests(input)
  {
    hide Pieces, PairRequests, AllPairs, Scan, FourPartRequest;
    var commaParts := Split(input, ',');
    if |commaParts| > 1 {
      r := ParsePairs(commaParts);
      return;
    }
    var sourceDest := Split(input, ':');
    if |sourceDest| <= 2 {
      r := ProcessUtStyleArg(sourceDest);
      return;
    }
    var parts := ParseSshTunnelArg(input);
    return if parts.Err? then Err(parts.error) else FourPartRequest(parts.value);
  }

  /** The loop over the parts of a list. */
  method ParsePairs(commaParts: seq<string>) returns (r: Result<seq<Request>>)
    ensures r == AllPairs(commaParts)
  {
    hide Pieces, PairRequests;
    var out: seq<Request> := [];
    for i := 0 to |commaParts|
      invariant AllPairs(commaParts[..i]) == Ok(out)
    {
      var sourceDest := Split(commaParts[i], ':');
      var more := ProcessUtStyleArg(sourceDest);
      assert commaParts[..i + 1][..i] == commaParts[..i];
      if more.Err? {
        AllPairsFails(commaParts, i + 1);
        return Err(more.error);
      }
      out := out + more.value;
    }
    assert commaParts[..|commaParts|] == commaParts;
    return Ok(out);
  }

  // ---------- what a range means ----------

  lemma {:induction false} PiecesOfPair(a: string, delim: char, b: string)
    requires delim !in a && delim !in b && b != ""
    ensures Pieces(a + [delim] + b, delim) == [a, b]
  {
    PiecesCat(a, delim, b);
  }

  lemma {:induction false} EndsOfRange(a: string, b: string)
    requires Numeric(a) && Numeric(b) && DigitsValue(a) <= INT_MAX && DigitsValue(b) <= INT_MAX
    ensures Ends(a + "-" + b) == Ok((DigitsValue(a), DigitsValue(b)))
  {
    PiecesOfPair(a, '-', b);
    StoiOfDigits(a);
    StoiOfDigits(b);
  }

  /**
   * A range of ports is paired port by port with one of the same length, and with no other; one
   * that runs backwards has no ports.
   */
  lemma {:induction false} RangesPairPortByPort(a: string, b: string, c: string, d: string)
    requires Numeric(a) && Numeric(b) && Numeric(c) && Numeric(d)
    requires DigitsValue(a) <= INT_MAX && DigitsValue(b) <= INT_MAX
    requires DigitsValue(c) <= INT_MAX && DigitsValue(d) <= INT_MAX
    ensures var r := Requests(a + "-" + b + ":" + c + "-" + d);
            var from, n, to := DigitsValue(a), DigitsValue(b) - DigitsValue(a), DigitsValue(c);
            && (r.Ok? <==> DigitsValue(d) - to == n)
            && (r.Err? ==> r.error == LengthsDiffer)
            && (r.Ok? ==> |r.value| == (if n < 0 then 0 else n + 1)
                          && forall i :: 0 <= i <= n ==>
                               r.value[i] == Request(Endpoint(Some("localhost"), Some(from + i)),
                                                     Endpoint(None, Some(to + i)), None))
  {
    hide Ends, DigitsValue, Requests, PortPairs;
    var source, dest := a + "-" + b, c + "-" + d;
    RangeIsOnePair(a, b, c, d);
    EndsOfRange(a, b);
    EndsOfRange(c, d);
    RangePair(source, dest, DigitsValue(a), DigitsValue(b), DigitsValue(c), DigitsValue(d));
  }

  lemma {:induction false} RangePair(source: string, dest: string, from: int, fromEnd: int, to: int, toEnd: int)
    requires NumericOrRange(source) && '-' in source && '-' in dest
    requires Ends(source) == Ok((from, fromEnd)) && Ends(dest) == Ok((to, toEnd))
    ensures PairRequests([source, dest]) ==
            if fromEnd - from != toEnd - to then Err(LengthsDiffer)
            else Ok(PortPairs(from, to, if fromEnd < from then 0 else fromEnd - from + 1))
  {
    hide Ends, NumericOrRange;
  }

  lemma {:induction false} RangeIsOnePair(a: string, b: string, c: string, d: string)
    requires Numeric(a) && Numeric(b) && Numeric(c) && Numeric(d)
    ensures var source, dest := a + "-" + b, c + "-" + d;
            var input := source + [':'] + dest;
            && a + "-" + b + ":" + c + "-" + d == input
            && Requests(input) == PairRequests([source, dest])
            && NumericOrRange(source) && '-' in source && '-' in dest
  {
    hide PairRequests, SshParts, AllPairs, FourPartRequest;
    var source, dest := a + "-" + b, c + "-" + d;
    var input := source + [':'] + dest;
    assert ',' !in input;
    PiecesOfPair(source, ':', dest);
    assert source[|a|] == '-' && dest[|c|] == '-';
  }

  // ---------- what a pair means ----------

  /** Text without a comma or a colon. */
  predicate Plain(s: string) {
    ',' !in s && ':' !in s
  }

  /** Two plain texts with a colon between them are one pair. */
  lemma {:induction false} OnePair(a: string, b: string)
    requires Plain(a) && Plain(b) && b != ""
    ensures Requests(a + ":" + b) == PairRequests([a, b])
    ensures Pieces(a + ":" + b, ':') == [a, b] && ',' !in a + ":" + b
  {
    hide PairRequests, SshParts, AllPairs, FourPartRequest;
    var input := a + ":" + b;
    assert ',' !in input;
    PiecesOfPair(a, ':', b);
  }

  /** Two ports: from the first, on this side, to the second. */
  lemma {:induction false} PortsAreForwarded(a: string, b: string)
    requires Numeric(a) && Numeric(b)
    ensures DigitsValue(a) <= INT_MAX && DigitsValue(b) <= INT_MAX ==>
              Requests(a + ":" + b)
              == Ok([Request(Endpoint(Some("localhost"), Some(DigitsValue(a))),
                             Endpoint(None, Some(DigitsValue(b))), None)])
    ensures DigitsValue(a) > INT_MAX || DigitsValue(b) > INT_MAX ==> Requests(a + ":" + b) == Err(NumberTooBig)
  {
    NoDash(a);
    NoDash(b);
    OnePair(a, b);
    StoiOfDigits(a);
    StoiOfDigits(b);
    hide DigitsValue, Stoi, Numeric, NumericOrRange, Ends;
  }

  lemma {:induction false} NoDash(s: string)
    requires Numeric(s)
    ensures '-' !in s && NumericOrRange(s) && Plain(s) && s != ""
  {
  }

  /** Two names: the first is a variable, which is to lead to the second. */
  lemma {:induction false} NamesAreForwarded(a: string, b: string)
    requires Plain(a) && Plain(b) && !NumericOrRange(a) && !NumericOrRange(b)
    ensures Requests(a + ":" + b) == Ok([Request(Endpoint(None, None), Endpoint(Some(b), None), Some(a))])
  {
    OnePair(a, b);
  }

  /** A range against a port, either way, is refused; so is one text alone. */
  lemma {:induction false} BadPairsAreRefused(a: string, b: string)
    requires Plain(a) && Plain(b) && b != "" && (NumericOrRange(a) || NumericOrRange(b))
    ensures ('-' in a) != ('-' in b) ==> Requests(a + ":" + b) == Err(OneSidedRange)
    ensures Requests(b) == Err(NeedsTwoParts)
  {
    OnePair(a, b);
    hide Port, Ends;
    assert Pieces(b, ':') == [b] && Pieces(b, ',') == [b];
  }

  // ---------- what a list means ----------

  function Commas(parts: seq<string>): string
    requires parts != []
  {
    if |parts| == 1 then parts[0] else parts[0] + "," + Commas(parts[1..])
  }

  function Flatten(lists: seq<seq<Request>>): seq<Request> {
    if lists == [] then [] else lists[0] + Flatten(lists[1..])
  }

  /** A part of a list: no comma, and at most one colon. */
  predicate Part(s: string) {
    s != "" && ',' !in s && |Pieces(s, ':')| <= 2
  }

  lemma {:induction false} PartAlone(s: string)
    requires Part(s)
    ensures Requests(s) == PairRequests(Pieces(s, ':'))
  {
    hide PairRequests, SshParts, AllPairs, FourPartRequest;
    assert Pieces(s, ',') == [s];
  }

  lemma {:induction false} OnePiece(s: string)
    requires Part(s)
    ensures Pieces(s, ',') == [s] && s != "" && ',' !in s
  {
  }

  lemma {:induction false} PiecesOfCommas(parts: seq<string>)
    requires parts != [] && forall i :: 0 <= i < |parts| ==> Part(parts[i])
    ensures Pieces(Commas(parts), ',') == parts && Commas(parts) != ""
  {
    hide Pieces, Part;
    OnePiece(parts[0]);
    if |parts| == 1 {
      assert parts == [parts[0]];
    } else {
      PiecesOfCommas(parts[1..]);
      PiecesCat(parts[0], ',', Commas(parts[1..]));
      assert parts[0] + [','] + Commas(parts[1..]) == Commas(parts);
    }
  }

  /** The requests of the parts of a list, in order, are the requests of the list. */
  lemma {:induction false} ListsKeepTheirOrder(parts: seq<string>, lists: seq<seq<Request>>)
    requires |parts| > 1 && |lists| == |parts|
    requires forall i :: 0 <= i < |parts| ==> Part(parts[i]) && Requests(parts[i]) == Ok(lists[i])
    ensures Requests(Commas(parts)) == Ok(Flatten(lists))
  {
    PiecesOfCommas(parts);
    hide PairRequests, SshParts, FourPartRequest, Pieces, Requests;
    assert parts[..|parts|] == parts && lists[..|lists|] == lists;
    PairsInOrder(parts, lists, |parts|);
    ManyParts(Commas(parts));
  }

  lemma {:induction false} ManyParts(input: string)
    ensures |Pieces(input, ',')| > 1 ==> Requests(input) == AllPairs(Pieces(input, ','))
  {
    hide PairRequests, SshParts, FourPartRequest, Pieces, AllPairs;
  }

  lemma {:induction false} PairsInOrder(parts: seq<string>, lists: seq<seq<Request>>, n: nat)
    requires n <= |parts| == |lists|
    requires forall i :: 0 <= i < n ==> Part(parts[i]) && Requests(parts[i]) == Ok(lists[i])
    ensures AllPairs(parts[..n]) == Ok(Flatten(lists[..n]))
    decreases n
  {
    hide PairRequests, Pieces, Requests, Part;
    if n > 0 {
      PairsInOrder(parts, lists, n - 1);
      PartAlone(parts[n - 1]);
      assert parts[..n][..n - 1] == parts[..n - 1] && lists[..n] == lists[..n - 1] + [lists[n - 1]];
      FlattenSnoc(lists[..n - 1], lists[n - 1]);
    }
  }

  lemma {:induction false} FlattenSnoc(lists: seq<seq<Request>>, last: seq<Request>)
    ensures Flatten(lists + [last]) == Flatten(lists) + last
  {
    if lists == [] {
      assert lists + [last] == [last] && [last][1..] == [];
    } else {
      assert (lists + [last])[1..] == lists[1..] + [last];
      FlattenSnoc(lists[1..], last);
    }
  }

  /** The first part that is refused refuses the list. */
  lemma {:induction false} FirstErrorWins(parts: seq<string>, lists: seq<seq<Request>>, k: nat, e: Error)
    requires |parts| > 1 && k < |parts| == |lists| && forall i :: 0 <= i < |parts| ==> Part(parts[i])
    requires forall i :: 0 <= i < k ==> Requests(parts[i]) == Ok(lists[i])
    requires Requests(parts[k]) == Err(e)
    ensures Requests(Commas(parts)) == Err(e)
  {
    PiecesOfCommas(parts);
    hide PairRequests, SshParts, FourPartRequest, Pieces, Requests, Part;
    ManyParts(Commas(parts));
    PairsInOrder(parts, lists, k);
    PartAlone(parts[k]);
    ErrorAt(parts, k, e);
    AllPairsFails(parts, k + 1);
  }

  lemma {:induction false} ErrorAt(parts: seq<string>, k: nat, e: Error)
    requires k < |parts| && AllPairs(parts[..k]).Ok? && PairRequests(Pieces(parts[k], ':')) == Err(e)
    ensures AllPairs(parts[..k + 1]) == Err(e)
  {
    hide PairRequests, Pieces;
    assert parts[..k + 1][..k] == parts[..k];
  }

  /** No pair names both a source host and a destination host. */
  lemma {:induction false} PairsNeverNameBoth(parts: seq<string>)
    ensures AllPairs(parts).Ok? ==>
              forall q :: q in AllPairs(parts).value ==> q.source.name.None? || q.destination.name.None?
  {
    if parts != [] {
      PairsNeverNameBoth(parts[..|parts| - 1]);
    }
  }
}
