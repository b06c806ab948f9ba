/** The string helpers of the configuration and tunnel-argument parsers, over the C locale. */
module Strings {
  import opened Bytes

  predicate IsSpace(c: char) {
    c == ' ' || '\t' <= c <= '\r'
  }

  predicate IsDigit(c: char) {
    '0' <= c <= '9'
  }

  predicate Spaces(s: string) {
    forall i :: 0 <= i < |s| ==> IsSpace(s[i])
  }

  predicate Spaceless(s: string) {
    forall i :: 0 <= i < |s| ==> !IsSpace(s[i])
  }

  predicate Numeric(s: string) {
    s != "" && forall i :: 0 <= i < |s| ==> IsDigit(s[i])
  }

  function LowerChar(c: char): char {
    if 'A' <= c <= 'Z' then c - 'A' + 'a' else c
  }

  function ToLower(s: string): (r: string)
    ensures |r| == |s| && forall i :: 0 <= i < |s| ==> r[i] == LowerChar(s[i])
  {
    seq(|s|, i requires 0 <= i < |s| => LowerChar(s[i]))
  }

  /** The white space of the C locale. */
  lemma IsSpaceExactly(c: char)
    ensures IsSpace(c) <==> c as int == 32 || c as int == 9 || c as int == 10 || c as int == 11
                            || c as int == 12 || c as int == 13
  {
  }

  const UPPER: string := "ABCDEFGHIJKLMNOPQRSTUVWXYZ"
  const LOWER: string := "abcdefghijklmnopqrstuvwxyz"

  lemma {:induction false} Alphabet(k: nat)
    requires k < 26
    ensures UPPER[k] as int == 'A' as int + k && LOWER[k] as int == 'a' as int + k
  {
  }

  /** Capital letters become the small ones, and nothing else changes. */
  lemma {:induction false} LowerCharExactly(c: char, k: nat)
    requires k < 26
    ensures LowerChar(UPPER[k]) == LOWER[k]
    ensures c < UPPER[0] || UPPER[25] < c ==> LowerChar(c) == c
  {
    Alphabet(k);
  }

  // ---------- searching ----------

  function IndexOf(s: string, c: char): (k: Option<nat>)
    ensures k.None? <==> c !in s
    ensures k.Some? ==> k.value < |s| && s[k.value] == c && c !in s[..k.value]
  {
    if s == "" then None
    else if s[0] == c then Some(0)
    else
      match IndexOf(s[1..], c)
      case None => None
      case Some(k) =>
        assert s[..k + 1] == [s[0]] + s[1..][..k];
        Some(k + 1)
  }

  function LastIndexOf(s: string, c: char): (k: Option<nat>)
    ensures k.None? <==> c !in s
    ensures k.Some? ==> k.value < |s| && s[k.value] == c && c !in s[k.value + 1..]
  {
    if s == "" then None
    else if s[|s| - 1] == c then Some(|s| - 1)
    else
      assert s == s[..|s| - 1] + [s[|s| - 1]];
      match LastIndexOf(s[..|s| - 1], c)
      case None => None
      case Some(k) =>
        assert s[k + 1..] == s[..|s| - 1][k + 1..] + [s[|s| - 1]];
        Some(k)
  }

  lemma {:induction false} IndexOfCat(a: string, c: char, b: string)
    requires c !in a
    ensures IndexOf(a + [c] + b, c) == Some(|a|)
  {
    var s := a + [c] + b;
    var k := IndexOf(s, c).value;
    assert s[|a|] == c;
  }

  lemma {:induction false} LastIndexOfCat(a: string, c: char, b: string)
    requires c !in b
    ensures LastIndexOf(a + [c] + b, c) == Some(|a|)
  {
    var s := a + [c] + b;
    var k := LastIndexOf(s, c).value;
    assert s[|a|] == c;
  }

  // ---------- trimming ----------

  function TrimLeft(s: string): string {
    if s != "" && IsSpace(s[0]) then TrimLeft(s[1..]) else s
  }

  function TrimRight(s: string): string {
    if s != "" && IsSpace(s[|s| - 1]) then TrimRight(s[..|s| - 1]) else s
  }

  function Trimmed(s: string): string {
    TrimRight(TrimLeft(s))
  }

  method Trim(value: string) returns (trimmed: string)
    ensures trimmed == Trimmed(value)
  {
    hide TrimLeft, TrimRight;
    var start := 0;
    assert value[0..] == value;
    while start < |value| && IsSpace(value[start])
      invariant 0 <= start <= |value|
      invariant TrimLeft(value) == TrimLeft(value[start..])
    {
      TrimLeftOnce(value, start);
      start := start + 1;
    }
    ghost var left := value[start..];
    TrimLeftStops(left);
    var end := |value|;
    assert left[..end - start] == left;
    while end > start && IsSpace(value[end - 1])
      invariant start <= end <= |value|
      invariant TrimRight(left) == TrimRight(left[..end - start])
    {
      TrimRightOnce(left, end - start);
      end := end - 1;
    }
    TrimRightStops(left[..end - start]);
    assert left[..end - start] == value[start..end];
    return value[start..end];
  }

  lemma {:induction false} TrimLeftOnce(s: string, k: nat)
    requires k < |s| && IsSpace(s[k])
    ensures TrimLeft(s[k..]) == TrimLeft(s[k + 1..])
  {
    assert s[k..][1..] == s[k + 1..];
  }

  lemma {:induction false} TrimLeftStops(s: string)
    requires s == "" || !IsSpace(s[0])
    ensures TrimLeft(s) == s
  {
  }

  lemma {:induction false} TrimRightOnce(s: string, k: nat)
    requires 0 < k <= |s| && IsSpace(s[k - 1])
    ensures TrimRight(s[..k]) == TrimRight(s[..k - 1])
  {
    assert s[..k][..k - 1] == s[..k - 1];
  }

  lemma {:induction false} TrimRightStops(s: string)
    requires s == "" || !IsSpace(s[|s| - 1])
    ensures TrimRight(s) == s
  {
  }

  /** No space at either end. */
  predicate Tight(s: string) {
    s != "" ==> !IsSpace(s[0]) && !IsSpace(s[|s| - 1])
  }

  lemma {:induction false} TrimLeftCat(a: string, s: string)
    requires Spaces(a) && (s != "" ==> !IsSpace(s[0]))
    ensures TrimLeft(a + s) == s
  {
    if a == "" {
      assert a + s == s;
    } else {
      assert (a + s)[1..] == a[1..] + s;
      TrimLeftCat(a[1..], s);
    }
  }

  lemma {:induction false} TrimRightCat(s: string, b: string)
    requires Spaces(b) && (s != "" ==> !IsSpace(s[|s| - 1]))
    ensures TrimRight(s + b) == s
  {
    if b == "" {
      assert s + b == s;
    } else {
      assert (s + b)[..|s + b| - 1] == s + b[..|b| - 1];
      TrimRightCat(s, b[..|b| - 1]);
    }
  }

  /** Trimming takes off the spaces around a tight text, and nothing else. */
  lemma {:induction false} TrimmedExactly(a: string, s: string, b: string)
    requires Spaces(a) && Spaces(b) && Tight(s)
    ensures Trimmed(a + s + b) == s
  {
    if s == "" {
      assert a + s + b == (a + b) + "";
      TrimLeftCat(a + b, "");
    } else {
      assert a + s + b == a + (s + b);
      TrimLeftCat(a, s + b);
      TrimRightCat(s, b);
    }
  }

  /** What trimming takes off the end is white space. */
  lemma {:induction false} TrimRightSplits(s: string) returns (spaces: string)
    ensures s == TrimRight(s) + spaces && Spaces(spaces)
    ensures TrimRight(s) != "" ==> !IsSpace(TrimRight(s)[|TrimRight(s)| - 1])
  {
    if s != "" && IsSpace(s[|s| - 1]) {
      var more := TrimRightSplits(s[..|s| - 1]);
      spaces := more + [s[|s| - 1]];
      assert s == s[..|s| - 1] + [s[|s| - 1]];
    } else {
      spaces := "";
    }
  }

  // ---------- words ----------

  function WordLength(s: string): (n: nat)
    ensures n <= |s| && Spaceless(s[..n]) && (n < |s| ==> IsSpace(s[n]))
    ensures s != "" && !IsSpace(s[0]) ==> n > 0
  {
    if s == "" || IsSpace(s[0]) then 0
    else
      var n := WordLength(s[1..]);
      assert s[..n + 1] == [s[0]] + s[1..][..n];
      n + 1
  }

  /** What reading words from a string stream yields. */
  function Words(s: string): seq<string>
    decreases |s|
  {
    if s == "" then []
    else if IsSpace(s[0]) then Words(s[1..])
    else [s[..WordLength(s)]] + Words(s[WordLength(s)..])
  }

  lemma {:induction false} WordsAreWords(s: string)
    ensures forall w :: w in Words(s) ==> w != "" && Spaceless(w) && |w| <= |s|
    decreases |s|
  {
    if s != "" {
      if IsSpace(s[0]) {
        WordsAreWords(s[1..]);
      } else {
        WordsAreWords(s[WordLength(s)..]);
      }
    }
  }

  function Join(ws: seq<string>): string {
    if ws == [] then "" else ws[0] + " " + Join(ws[1..])
  }

  lemma {:induction false} FirstWord(w: string, c: char, rest: string)
    requires w != "" && Spaceless(w) && IsSpace(c)
    ensures Words(w + [c] + rest) == [w] + Words(rest)
  {
    var s := w + [c] + rest;
    assert s[0] == w[0] && s[|w|] == c;
    var n := WordLength(s);
    assert n == |w|;
    var after := s[n..];
    assert s[..n] == w && after == [c] + rest && after[1..] == rest;
    assert Words(after) == Words(rest);
  }

  lemma {:induction false} LeadingSpaces(sep: string, rest: string)
    requires Spaces(sep)
    ensures Words(sep + rest) == Words(rest)
  {
    if sep == "" {
      assert sep + rest == rest;
    } else {
      assert (sep + rest)[1..] == sep[1..] + rest;
      LeadingSpaces(sep[1..], rest);
    }
  }

  /** Words written with spaces between them are read back. */
  lemma {:induction false} WordsOfJoin(ws: seq<string>)
    requires forall w :: w in ws ==> w != "" && Spaceless(w)
    ensures Words(Join(ws)) == ws
  {
    hide Words;
    if ws == [] {
      NoWords();
    } else {
      assert ws[0] in ws && forall x :: x in ws[1..] ==> x in ws;
      FirstWord(ws[0], ' ', Join(ws[1..]));
      WordsOfJoin(ws[1..]);
      assert ws == [ws[0]] + ws[1..];
    }
  }

  lemma {:induction false} NoWords()
    ensures Words("") == []
  {
  }

  // ---------- splitting ----------

  /** Reading up to a delimiter until the stream ends: a delimiter at the end opens no piece. */
  function Pieces(s: string, delim: char): seq<string>
    decreases |s|
  {
    if s == "" then []
    else
      match IndexOf(s, delim)
      case None => [s]
      case Some(k) => [s[..k]] + Pieces(s[k + 1..], delim)
  }

  method Split(input: string, delim: char) returns (out: seq<string>)
    ensures out == Pieces(input, delim)
  {
    out := [];
    var rest := input;
    while rest != ""
      invariant Pieces(input, delim) == out + Pieces(rest, delim)
      decreases |rest|
    {
      match IndexOf(rest, delim) {
        case None =>
          out, rest := out + [rest], "";
        case Some(k) =>
          ghost var more := Pieces(rest[k + 1..], delim);
          assert out + ([rest[..k]] + more) == (out + [rest[..k]]) + more;
          out, rest := out + [rest[..k]], rest[k + 1..];
      }
    }
  }

  lemma {:induction false} PiecesCat(a: string, delim: char, b: string)
    requires delim !in a
    ensures Pieces(a + [delim] + b, delim) == [a] + Pieces(b, delim)
  {
    IndexOfCat(a, delim, b);
    var s := a + [delim] + b;
    assert s[..|a|] == a && s[|a| + 1..] == b;
  }

  /** A text without the delimiter is one piece, and a delimiter at the end opens none. */
  lemma {:induction false} LastPiece(a: string, delim: char)
    requires delim !in a
    ensures Pieces("", delim) == []
    ensures a != "" ==> Pieces(a, delim) == [a]
    ensures Pieces(a + [delim], delim) == [a]
  {
    PiecesCat(a, delim, "");
    assert a + [delim] + "" == a + [delim];
  }

  // ---------- numbers ----------

  const INT_MAX: int := 0x7FFF_FFFF
  const INT_MIN: int := -0x8000_0000

  datatype Number = Number(value: int) | NotANumber | TooBig

  function DigitsValue(s: string): nat
    requires forall i :: 0 <= i < |s| ==> IsDigit(s[i])
  {
    if s == "" then 0
    else
      assert IsDigit(s[|s| - 1]);
      DigitsValue(s[..|s| - 1]) * 10 + (s[|s| - 1] as int - '0' as int)
  }

  function DigitCount(s: string): (n: nat)
    ensures n <= |s| && (forall i :: 0 <= i < n ==> IsDigit(s[i])) && (n < |s| ==> !IsDigit(s[n]))
  {
    if s == "" || !IsDigit(s[0]) then 0 else 1 + DigitCount(s[1..])
  }

  const DIGITS: string := "0123456789"

  /** A number as it is written. */
  function Decimal(n: nat): string {
    if n < 10 then [DIGITS[n]] else Decimal(n / 10) + [DIGITS[n % 10]]
  }

  lemma {:induction false} DigitAt(k: nat)
    requires k < 10
    ensures IsDigit(DIGITS[k]) && DIGITS[k] as int == '0' as int + k
  {
  }

  lemma {:induction false} DigitsOfSnoc(s: string, k: nat)
    requires k < 10 && forall i :: 0 <= i < |s| ==> IsDigit(s[i])
    ensures Numeric(s + [DIGITS[k]]) && DigitsValue(s + [DIGITS[k]]) == DigitsValue(s) * 10 + k
  {
    DigitAt(k);
    assert (s + [DIGITS[k]])[..|s|] == s;
  }

  /** A number written down is read back, leading zeros or not. */
  lemma {:induction false} DecimalIsReadBack(n: nat, zeros: string)
    requires forall i :: 0 <= i < |zeros| ==> zeros[i] == '0'
    ensures Numeric(zeros + Decimal(n)) && DigitsValue(zeros + Decimal(n)) == n
    decreases n, |zeros|
  {
    hide DigitsValue;
    if n < 10 {
      ZerosAreNothing(zeros);
      DigitsOfSnoc(zeros, n);
    } else {
      DecimalIsReadBack(n / 10, zeros);
      DigitsOfSnoc(zeros + Decimal(n / 10), n % 10);
      assert zeros + Decimal(n) == zeros + Decimal(n / 10) + [DIGITS[n % 10]];
    }
  }

  lemma {:induction false} ZerosAreNothing(zeros: string)
    requires forall i :: 0 <= i < |zeros| ==> zeros[i] == '0'
    ensures DigitsValue(zeros) == 0
  {
    if zeros != "" {
      ZerosAreNothing(zeros[..|zeros| - 1]);
    }
  }

  /** `std::stoi`: the number at the start, after spaces and a sign. */
  function Stoi(s: string): Number {
    var t := TrimLeft(s);
    var signed := t != "" && (t[0] == '-' || t[0] == '+');
    var u := if signed then t[1..] else t;
    var n := DigitCount(u);
    if n == 0 then NotANumber
    else
      var magnitude: int := DigitsValue(u[..n]);
      var v := if signed && t[0] == '-' then -magnitude else magnitude;
      if INT_MIN <= v <= INT_MAX then Number(v) else TooBig
  }

  lemma {:induction false} StoiOfDigits(s: string)
    requires Numeric(s)
    ensures Stoi(s) == if DigitsValue(s) <= INT_MAX then Number(DigitsValue(s)) else TooBig
  {
    assert TrimLeft(s) == s;
    assert s[..|s|] == s;
  }

  function Signed(sign: string, n: int): Number {
    var v := if sign == "-" then -n else n;
    if -0x8000_0000 <= v <= 0x7FFF_FFFF then Number(v) else TooBig
  }

  /** White space, a sign or none, and digits are a number, whatever comes behind the digits. */
  lemma {:induction false} StoiReads(spaces: string, sign: string, digits: string, rest: string)
    requires Spaces(spaces) && (sign == "" || sign == "-" || sign == "+")
    requires Numeric(digits) && (rest == "" || !IsDigit(rest[0]))
    ensures Stoi(spaces + (sign + digits + rest)) == Signed(sign, DigitsValue(digits))
  {
    hide TrimLeft, DigitsValue, DigitCount;
    var t := sign + digits + rest;
    assert t[0] == if sign == "" then digits[0] else sign[0];
    TrimLeftCat(spaces, t);
    DigitsThenRest(digits, rest);
    Unsigned(sign, digits, rest);
  }

  /** What is left of a number behind its sign. */
  lemma {:induction false} Unsigned(sign: string, digits: string, rest: string)
    requires Numeric(digits) && (sign == "" || sign == "-" || sign == "+")
    ensures var t := sign + digits + rest;
            && t != "" && (t[0] == '-' <==> sign == "-") && (t[0] == '+' <==> sign == "+")
            && (if sign == "" then t else t[1..]) == digits + rest
            && (digits + rest)[..|digits|] == digits
  {
    if sign == "" {
      assert sign + digits + rest == digits + rest;
    } else {
      assert (sign + digits + rest)[1..] == digits + rest;
    }
  }

  lemma {:induction false} DigitsThenRest(digits: string, rest: string)
    requires (forall i :: 0 <= i < |digits| ==> IsDigit(digits[i])) && (rest == "" || !IsDigit(rest[0]))
    ensures DigitCount(digits + rest) == |digits|
  {
    if digits != "" {
      assert (digits + rest)[1..] == digits[1..] + rest;
      DigitsThenRest(digits[1..], rest);
    } else {
      assert digits + rest == rest;
    }
  }
}
