/** The one-pass reading of an ssh configuration file for one host. */
module HostConfig {
  import opened Bytes
  import opened Strings
  import Globs
  import LocalForwards

  /** Fields of the options record, `forwardAgent` being None until it is set. */
  datatype Options = Options(
    hostName: string,
    user: string,
    identityFile: string,
    proxyJump: string,
    port: int,
    forwardAgent: Option<bool>,
    localForwards: seq<string>)

  const DEFAULTS: Options := Options("", "", "", "", 0, None, [])

  // ---------- one line ----------

  datatype Line =
    | Ignored
    | HostLine(patterns: seq<string>)
    | Setting(key: Key, word: string, value: string)

  /** The options of which a file can give only one value, and the one it can give many of. */
  datatype Scalar = HostName | User | IdentityFile | ProxyJump | Port | ForwardAgent

  datatype Key = One(scalar: Scalar) | LocalForward | Unknown

  function KeyOf(lowered: string): Key {
    if lowered == "hostname" then One(HostName)
    else if lowered == "user" then One(User)
    else if lowered == "port" then One(Port)
    else if lowered == "identityfile" then One(IdentityFile)
    else if lowered == "proxyjump" then One(ProxyJump)
    else if lowered == "forwardagent" then One(ForwardAgent)
    else if lowered == "localforward" then LocalForward
    else Unknown
  }

  function WithoutComment(line: string): string {
    var trimmed := Trimmed(line);
    match IndexOf(trimmed, '#')
    case None => trimmed
    case Some(k) => Trimmed(trimmed[..k])
  }

  /** A line's words decide what it is; a setting's value is all that follows its key. */
  function ParseLine(line: string): Line {
    var text := WithoutComment(line);
    var tokens := Words(text);
    if tokens == [] then Ignored
    else if ToLower(tokens[0]) == "host" then HostLine(tokens[1..])
    else if |tokens| < 2 then Ignored
    else
      WordsAreWords(text);
      Setting(KeyOf(ToLower(tokens[0])), tokens[1], Trimmed(text[|tokens[0]|..]))
  }

  /** Taking out white space keeps everything else, in order. */
  lemma {:induction false} WithoutSpacesExactly(a: string, b: string)
    ensures WithoutSpaces(a + b) == WithoutSpaces(a) + WithoutSpaces(b)
    ensures Spaceless(a) ==> WithoutSpaces(a) == a
    ensures Spaces(a) ==> WithoutSpaces(a) == ""
    decreases |b|, |a|
  {
    if b != "" {
      assert (a + b)[..|a + b| - 1] == a + b[..|b| - 1];
      WithoutSpacesExactly(a, b[..|b| - 1]);
    } else {
      assert a + b == a;
      if a != "" {
        WithoutSpacesExactly(a[..|a| - 1], "");
      }
    }
  }

  function WithoutSpaces(s: string): string {
    if s == "" then ""
    else WithoutSpaces(s[..|s| - 1]) + if IsSpace(s[|s| - 1]) then "" else [s[|s| - 1]]
  }

  /** `home` is the home directory of the environment, empty if there is none. */
  function ExpandHome(value: string, home: string): string {
    if value == "" || value[0] != '~' || home == "" then value
    else if |value| == 1 then home
    else if value[1] == '/' || value[1] == '\\' then home + value[1..]
    else value
  }

  /** A leading tilde, alone or before a separator, is the home directory; all else stays. */
  lemma {:induction false} ExpandHomeExactly(rest: string, home: string)
    requires home != ""
    ensures ExpandHome("~", home) == home
    ensures ExpandHome("~/" + rest, home) == home + "/" + rest
    ensures ExpandHome("~\\" + rest, home) == home + "\\" + rest
    ensures (rest == "" || rest[0] != '~') ==> ExpandHome(rest, home) == rest
    ensures rest != "" && rest[0] != '/' && rest[0] != '\\' ==> ExpandHome("~" + rest, home) == "~" + rest
    ensures ExpandHome("~" + rest, "") == "~" + rest
  {
    assert ("~/" + rest)[1..] == "/" + rest && ("~\\" + rest)[1..] == "\\" + rest;
  }

  predicate IsYes(word: string) {
    var lowered := ToLower(word);
    lowered == "yes" || lowered == "true" || lowered == "on" || lowered == "1"
  }

  // ---------- the declarative reading ----------

  datatype Value = Text(text: string) | Whole(number: int) | Flag(flag: Option<bool>)

  function Get(o: Options, k: Scalar): Value {
    match k
    case HostName => Text(o.hostName)
    case User => Text(o.user)
    case IdentityFile => Text(o.identityFile)
    case ProxyJump => Text(o.proxyJump)
    case Port => Whole(o.port)
    case ForwardAgent => Flag(o.forwardAgent)
  }

  /** The value a line gives an option, if it is a valid one. */
  function Given(k: Scalar, line: Line, home: string): Option<Value> {
    if !line.Setting? || line.key != One(k) then None
    else
      match k
      case HostName => Some(Text(line.value))
      case User => Some(Text(line.value))
      case IdentityFile => Some(Text(ExpandHome(line.value, home)))
      case ProxyJump => Some(Text(WithoutSpaces(line.value)))
      case Port => if Numeric(line.word) then Some(Whole(DigitsValue(line.word))) else None
      case ForwardAgent => Some(Flag(Some(IsYes(line.word))))
  }

  function GivenForward(line: Line): Option<string> {
    if line.Setting? && line.key.LocalForward? then LocalForwards.NormalizeLocalForward(line.value) else None
  }

  predicate IsHostLine(lines: seq<string>, i: nat)
    requires i < |lines|
  {
    ParseLine(lines[i]).HostLine?
  }

  /** The last Host line before line n. */
  function HostBefore(lines: seq<string>, n: nat): (r: Option<nat>)
    requires n <= |lines|
    ensures r.Some? ==> r.value < n && IsHostLine(lines, r.value)
  {
    if n == 0 then None
    else if IsHostLine(lines, n - 1) then Some(n - 1)
    else HostBefore(lines, n - 1)
  }

  lemma {:induction false} HostBeforeIsNearest(lines: seq<string>, n: nat)
    requires n <= |lines|
    ensures var r := HostBefore(lines, n);
            if r.None? then forall j :: 0 <= j < n ==> !IsHostLine(lines, j)
            else r.value < n && IsHostLine(lines, r.value)
                 && forall j :: r.value < j < n ==> !IsHostLine(lines, j)
  {
    hide IsHostLine;
    if n > 0 && !IsHostLine(lines, n - 1) {
      HostBeforeIsNearest(lines, n - 1);
    }
  }

  /** Line n stands before any Host line, or in the block of one that matches. */
  predicate InEffect(lines: seq<string>, host: string, n: nat)
    requires n <= |lines|
  {
    match HostBefore(lines, n)
    case None => true
    case Some(j) => Globs.HostSelected(ParseLine(lines[j]).patterns, host)
  }

  predicate Sets(lines: seq<string>, host: string, home: string, k: Scalar, i: nat)
    requires i < |lines|
  {
    InEffect(lines, host, i) && Given(k, ParseLine(lines[i]), home).Some?
  }

  /** The last valid occurrence in effect among the first n lines. */
  function LastOf(lines: seq<string>, host: string, home: string, k: Scalar, n: nat): Option<Value>
    requires n <= |lines|
  {
    if n == 0 then None
    else if Sets(lines, host, home, k, n - 1) then Given(k, ParseLine(lines[n - 1]), home)
    else LastOf(lines, host, home, k, n - 1)
  }

  lemma {:induction false} SettingGives(lines: seq<string>, host: string, home: string, k: Scalar, i: nat)
    requires i < |lines| && Sets(lines, host, home, k, i)
    ensures Given(k, ParseLine(lines[i]), home).Some?
  {
  }

  lemma {:induction false} LastOfIsLast(lines: seq<string>, host: string, home: string, k: Scalar, n: nat)
    requires n <= |lines|
    ensures var r := LastOf(lines, host, home, k, n);
            if r.None? then forall i :: 0 <= i < n ==> !Sets(lines, host, home, k, i)
            else exists i :: 0 <= i < n && Sets(lines, host, home, k, i)
                             && r == Given(k, ParseLine(lines[i]), home)
                             && forall j :: i < j < n ==> !Sets(lines, host, home, k, j)
  {
    hide Given, ParseLine, Sets;
    if n > 0 && !Sets(lines, host, home, k, n - 1) {
      LastOfIsLast(lines, host, home, k, n - 1);
    } else if n > 0 {
      SettingGives(lines, host, home, k, n - 1);
    }
  }

  /** The successful normalisations in effect among the first n lines, in order. */
  function ForwardsOf(lines: seq<string>, host: string, n: nat): seq<string>
    requires n <= |lines|
  {
    if n == 0 then []
    else
      ForwardsOf(lines, host, n - 1)
      + match GivenForward(ParseLine(lines[n - 1]))
        case None => []
        case Some(f) => if InEffect(lines, host, n - 1) then [f] else []
  }

  /** Later lines add forwards behind the earlier ones. */
  lemma {:induction false} ForwardsInOrder(lines: seq<string>, host: string, i: nat, n: nat)
    requires i < n <= |lines| && InEffect(lines, host, i) && GivenForward(ParseLine(lines[i])).Some?
    ensures ForwardsOf(lines, host, i) + [GivenForward(ParseLine(lines[i])).value] <= ForwardsOf(lines, host, n)
    decreases n
  {
    hide GivenForward, ParseLine, InEffect;
    if i < n - 1 {
      ForwardsInOrder(lines, host, i, n - 1);
    }
  }

  ghost predicate Reading(lines: seq<string>, host: string, home: string, n: nat, o: Options)
    requires n <= |lines|
  {
    && (forall k: Scalar :: Get(o, k) == LastOf(lines, host, home, k, n).GetOr(Get(DEFAULTS, k)))
    && o.localForwards == ForwardsOf(lines, host, n)
  }

  /** The reading leaves nothing open. */
  lemma {:induction false} ReadingIsUnique(lines: seq<string>, host: string, home: string, o: Options, o': Options)
    ensures Reading(lines, host, home, |lines|, o) && Reading(lines, host, home, |lines|, o') ==> o == o'
  {
    hide LastOf, ForwardsOf, Get;
    if Reading(lines, host, home, |lines|, o) && Reading(lines, host, home, |lines|, o') {
      assert forall k: Scalar :: Get(o, k) == Get(o', k);
      OptionsAreTheirFields(o, o');
    }
  }

  lemma {:induction false} OptionsAreTheirFields(o: Options, o': Options)
    requires forall k: Scalar :: Get(o, k) == Get(o', k)
    requires o.localForwards == o'.localForwards
    ensures o == o'
  {
    assert Get(o, HostName) == Get(o', HostName) && Get(o, User) == Get(o', User);
    assert Get(o, IdentityFile) == Get(o', IdentityFile) && Get(o, ProxyJump) == Get(o', ProxyJump);
    assert Get(o, Port) == Get(o', Port) && Get(o, ForwardAgent) == Get(o', ForwardAgent);
  }

  /** A port that is numeric but no int makes the program throw. */
  predicate PortTooBig(lines: seq<string>, host: string, i: nat)
    requires i < |lines|
  {
    var line := ParseLine(lines[i]);
    && InEffect(lines, host, i)
    && line.Setting? && line.key == One(Port) && Numeric(line.word) && DigitsValue(line.word) > INT_MAX
  }

  // ---------- the loop ----------

  datatype Loaded = Loaded(options: Options) | NotFound(path: string) | Thrown

  /** What one setting in effect makes of the record, if its port is an int. */
  function Apply(o: Options, line: Line, home: string): Options
    requires line.Setting?
  {
    match line.key
    case One(HostName) => o.(hostName := line.value)
    case One(User) => o.(user := line.value)
    case One(Port) => if Numeric(line.word) then o.(port := DigitsValue(line.word)) else o
    case One(IdentityFile) => o.(identityFile := ExpandHome(line.value, home))
    case One(ProxyJump) => o.(proxyJump := WithoutSpaces(line.value))
    case One(ForwardAgent) => o.(forwardAgent := Some(IsYes(line.word)))
    case LocalForward =>
      (match LocalForwards.NormalizeLocalForward(line.value)
       case None => o
       case Some(f) => o.(localForwards := o.localForwards + [f]))
    case Unknown => o
  }

  /** A setting changes what it gives and nothing else. */
  lemma {:induction false} ApplyGives(o: Options, line: Line, home: string, k: Scalar)
    requires line.Setting?
    ensures Get(Apply(o, line, home), k) == Given(k, line, home).GetOr(Get(o, k))
    ensures Apply(o, line, home).localForwards
         == o.localForwards + match GivenForward(line) { case None => [] case Some(f) => [f] }
  {
    assert o.localForwards + [] == o.localForwards;
  }

  /** One more line, if its port is an int. */
  function Advance(lines: seq<string>, host: string, home: string, n: nat, o: Options): Options
    requires n < |lines|
  {
    var line := ParseLine(lines[n]);
    if line.Setting? && InEffect(lines, host, n) then Apply(o, line, home) else o
  }

  lemma {:induction false} AdvanceScalar(lines: seq<string>, host: string, home: string, n: nat, o: Options, k: Scalar)
    requires n < |lines| && Get(o, k) == LastOf(lines, host, home, k, n).GetOr(Get(DEFAULTS, k))
    ensures Get(Advance(lines, host, home, n, o), k)
         == LastOf(lines, host, home, k, n + 1).GetOr(Get(DEFAULTS, k))
  {
    var line := ParseLine(lines[n]);
    hide ParseLine, InEffect, Apply, Get;
    if line.Setting? {
      ApplyGives(o, line, home, k);
    }
  }

  lemma {:induction false} AdvanceForwards(lines: seq<string>, host: string, home: string, n: nat, o: Options)
    requires n < |lines| && o.localForwards == ForwardsOf(lines, host, n)
    ensures Advance(lines, host, home, n, o).localForwards == ForwardsOf(lines, host, n + 1)
  {
    var line := ParseLine(lines[n]);
    hide ParseLine, InEffect, Apply;
    if line.Setting? {
      ApplyGives(o, line, home, HostName);
    }
    assert o.localForwards + [] == o.localForwards;
  }

  lemma {:induction false} ReadingGoesOn(lines: seq<string>, host: string, home: string, n: nat, o: Options)
    requires n < |lines| && Reading(lines, host, home, n, o)
    ensures Reading(lines, host, home, n + 1, Advance(lines, host, home, n, o))
  {
    hide Advance, LastOf, ForwardsOf;
    forall k: Scalar
      ensures Get(Advance(lines, host, home, n, o), k)
           == LastOf(lines, host, home, k, n + 1).GetOr(Get(DEFAULTS, k))
    {
      AdvanceScalar(lines, host, home, n, o, k);
    }
    AdvanceForwards(lines, host, home, n, o);
  }

  /**
   * Reads the file, None if it cannot be opened. A missing file that is not optional is the only
   * error, and none if the caller takes no error text (`reporting` is false); a port too big for
   * stoi escapes as an exception.
   */
  method LoadForHost(
    host: string, configPath: string, file: Option<seq<string>>, optional: bool, reporting: bool, home: string)
    returns (r: Loaded)
    ensures configPath == "" ==> r == Loaded(DEFAULTS)
    ensures configPath != "" && file.None? ==>
              if !optional && reporting then r == NotFound(configPath) else r == Loaded(DEFAULTS)
    ensures configPath != "" && file.Some? ==>
              var lines := file.value;
              && (r == Thrown <==> exists i :: 0 <= i < |lines| && PortTooBig(lines, host, i))
              && (r != Thrown ==> r.Loaded? && Reading(lines, host, home, |lines|, r.options))
  {
    hide Reading, InEffect, PortTooBig, ForwardsOf;
    var out := DEFAULTS;
    if configPath == "" {
      return Loaded(out);
    }
    if file.None? {
      return if !optional && reporting then NotFound(configPath) else Loaded(out);
    }
    var lines := file.value;
    NothingRead(lines, host, home);
    var currentMatch := true;
    for i := 0 to |lines|
      invariant currentMatch == InEffect(lines, host, i)
      invariant Reading(lines, host, home, i, out)
      invariant forall j :: 0 <= j < i ==> !PortTooBig(lines, host, j)
    {
      ReadingGoesOn(lines, host, home, i, out);
      var thrown;
      out, currentMatch, thrown := ReadLine(lines, host, home, i, out, currentMatch);
      if thrown {
        return Thrown;
      }
    }
    return Loaded(out);
  }

  lemma {:induction false} NothingRead(lines: seq<string>, host: string, home: string)
    ensures Reading(lines, host, home, 0, DEFAULTS) && InEffect(lines, host, 0)
  {
  }

  /** The body of the loop. */
  method ReadLine(lines: seq<string>, host: string, home: string, i: nat, options: Options, matched: bool)
    returns (out: Options, currentMatch: bool, thrown: bool)
    requires i < |lines| && matched == InEffect(lines, host, i)
    ensures thrown == PortTooBig(lines, host, i)
    ensures !thrown ==> out == Advance(lines, host, home, i, options)
    ensures !thrown ==> currentMatch == InEffect(lines, host, i + 1)
  {
    hide KeyOf, Apply, Numeric, Trimmed, Words, Globs.HostSelected, Given;
    out, currentMatch, thrown := options, matched, false;
    var trimmed := Trim(lines[i]);
    match IndexOf(trimmed, '#') {
      case None =>
      case Some(comment) => trimmed := Trim(trimmed[..comment]);
    }
    if trimmed == "" {
      NoWords();
      return;
    }
    var tokens := Words(trimmed);
    if tokens == [] {
      return;
    }
    var key := ToLower(tokens[0]);
    if key == "host" {
      currentMatch := Globs.HostMatches(tokens[1..], host);
      return;
    }
    if !currentMatch || |tokens| < 2 {
      return;
    }
    WordsAreWords(trimmed);
    var value := Trim(trimmed[|tokens[0]|..]);
    out, thrown := ApplySetting(out, Setting(KeyOf(key), tokens[1], value), home);
  }

  /** The record after a setting in effect. */
  method ApplySetting(options: Options, line: Line, home: string) returns (out: Options, thrown: bool)
    requires line.Setting?
    ensures thrown <==> line.key == One(Port) && Numeric(line.word) && DigitsValue(line.word) > INT_MAX
    ensures !thrown ==> out == Apply(options, line, home)
  {
    var value := line.value;
    out, thrown := options, false;
    match line.key {
      case One(HostName) => out := out.(hostName := value);
      case One(User) => out := out.(user := value);
      case One(Port) =>
        if Numeric(line.word) {
          var port := Stoi(line.word);
          StoiOfDigits(line.word);
          if port.TooBig? {
            thrown := true;
            return;
          }
          out := out.(port := port.value);
        }
      case One(IdentityFile) => out := out.(identityFile := ExpandHome(value, home));
      case One(ProxyJump) => out := out.(proxyJump := WithoutSpaces(value));
      case One(ForwardAgent) => out := out.(forwardAgent := Some(IsYes(line.word)));
      case LocalForward =>
        var normalized := LocalForwards.NormalizeLocalForward(value);
        if normalized.Some? {
          out := out.(localForwards := out.localForwards + [normalized.value]);
        }
      case Unknown =>
    }
  }

  // ---------- what a file says ----------

  /** White space around a text, and a comment behind it, are not part of it. */
  lemma {:induction false} LayoutDoesNotMatter(a: string, s: string, b: string, comment: string)
    requires Spaces(a) && Spaces(b) && s != "" && Tight(s) && '#' !in s
    requires comment == "" || comment[0] == '#'
    ensures WithoutComment(a + s + b + comment) == s
  {
    hide Trimmed, TrimRight, Spaces, Tight;
    if comment == "" {
      assert a + s + b + comment == a + s + b;
      TrimmedExactly(a, s, b);
    } else {
      var spaces := TrimRightSplits(comment);
      var note := TrimRight(comment);
      NoteStays(comment, note, spaces);
      TextAndNote(s, b, note);
      var text := s + b + note;
      assert a + s + b + comment == a + text + spaces;
      TrimmedExactly(a, text, spaces);
      assert text[..|s + b|] == s + b && "" + s + b == s + b;
      NoSpaces();
      TrimmedExactly("", s, b);
    }
  }

  lemma NoSpaces()
    ensures Spaces("")
  {
  }

  lemma {:induction false} TextAndNote(s: string, b: string, note: string)
    requires Spaces(b) && s != "" && Tight(s) && '#' !in s
    requires note != "" && note[0] == '#' && !IsSpace(note[|note| - 1])
    ensures Tight(s + b + note) && IndexOf(s + b + note, '#') == Some(|s + b|)
  {
    var kept := s + b;
    assert '#' !in b && '#' !in kept;
    assert kept + note == kept + ['#'] + note[1..];
    IndexOfCat(kept, '#', note[1..]);
  }

  lemma {:induction false} NoteStays(comment: string, note: string, spaces: string)
    requires comment == note + spaces && comment != "" && comment[0] == '#' && Spaces(spaces)
    ensures note != "" && note[0] == '#'
  {
    assert note == "" ==> comment == spaces;
  }

  /** A line that gives a word and, behind white space, a value; both without `#`. */
  ghost predicate Says(line: string, word: string, v: string) {
    && word != "" && Spaceless(word) && '#' !in word
    && v != "" && Tight(v) && '#' !in v
    && exists a, sep, b, comment ::
         && Spaces(a) && Spaces(sep) && sep != "" && Spaces(b) && (comment == "" || comment[0] == '#')
         && line == a + (word + sep + v) + b + comment
  }

  /** Whatever its layout, a line is read as its word, in any case, and its value. */
  lemma {:induction false} LineMeans(line: string, word: string, v: string)
    requires Says(line, word, v)
    ensures Words(v) != []
    ensures ParseLine(line)
         == if ToLower(word) == "host" then HostLine(Words(v)) else Setting(KeyOf(ToLower(word)), Words(v)[0], v)
  {
    var a, sep, b, comment :|
      && Spaces(a) && Spaces(sep) && sep != "" && Spaces(b) && (comment == "" || comment[0] == '#')
      && line == a + (word + sep + v) + b + comment;
    var text := word + sep + v;
    WordAndValue(word, sep, v);
    LayoutDoesNotMatter(a, text, b, comment);
    hide WithoutComment, Words, Trimmed, KeyOf;
    assert [word] + Words(v) != [] && ([word] + Words(v))[1..] == Words(v);
  }

  lemma {:induction false} WordAndValue(word: string, sep: string, v: string)
    requires word != "" && Spaceless(word) && '#' !in word
    requires v != "" && Tight(v) && '#' !in v && Spaces(sep) && sep != ""
    ensures var text := word + sep + v;
            && text != "" && Tight(text) && '#' !in text
            && Words(text) == [word] + Words(v) && Words(v) != []
            && Trimmed(text[|word|..]) == v
  {
    TextIsTight(word, sep, v);
    WordsOfLine(word, sep, v);
    hide Trimmed, Words;
    assert (word + sep + v)[|word|..] == sep + v + "";
    TrimmedExactly(sep, v, "");
  }

  lemma {:induction false} TextIsTight(word: string, sep: string, v: string)
    requires word != "" && Spaceless(word) && '#' !in word
    requires v != "" && Tight(v) && '#' !in v && Spaces(sep)
    ensures var text := word + sep + v; text != "" && Tight(text) && '#' !in text
  {
    var text := word + sep + v;
    assert '#' !in sep;
    assert text[0] == word[0] && text[|text| - 1] == v[|v| - 1];
  }

  lemma {:induction false} WordsOfLine(word: string, sep: string, v: string)
    requires word != "" && Spaceless(word) && v != "" && Tight(v) && Spaces(sep) && sep != ""
    ensures Words(word + sep + v) == [word] + Words(v) && Words(v) != []
  {
    assert Words(v) != [];
    hide Words;
    assert word + sep + v == word + [sep[0]] + (sep[1..] + v);
    FirstWord(word, sep[0], sep[1..] + v);
    LeadingSpaces(sep[1..], v);
  }

  /** The reading of a file of one line. */
  lemma {:induction false} OneLineReading(host: string, home: string, line: string, o: Options)
    requires Reading([line], host, home, 1, o)
    ensures forall k: Scalar :: Get(o, k) == Given(k, ParseLine(line), home).GetOr(Get(DEFAULTS, k))
    ensures o.localForwards == match GivenForward(ParseLine(line)) { case None => [] case Some(f) => [f] }
  {
    hide ParseLine, Given, Get, GivenForward;
    var lines := [line];
    assert InEffect(lines, host, 0) && ForwardsOf(lines, host, 0) == [];
    forall k: Scalar
      ensures LastOf(lines, host, home, k, 1) == Given(k, ParseLine(line), home)
    {
      assert LastOf(lines, host, home, k, 0) == None;
    }
  }

  /** The words that say yes, in any case. */
  lemma {:induction false} IsYesExactly(word: string)
    ensures IsYes(word) <==> ToLower(word) in ["yes", "true", "on", "1"]
  {
  }

  /**
   * What each line means for the record: exactly the option it names changes, to its value with
   * the home directory put in, the white space taken out, or the number, flag or forward it is.
   */
  lemma {:induction false} OneLineFile(host: string, home: string, line: string, word: string, v: string, o: Options)
    requires Says(line, word, v) && Reading([line], host, home, 1, o)
    ensures Words(v) != []
    ensures var key, first := ToLower(word), Words(v)[0];
            && (key == "hostname" ==> o == DEFAULTS.(hostName := v))
            && (key == "user" ==> o == DEFAULTS.(user := v))
            && (key == "port" ==> o == DEFAULTS.(port := if Numeric(first) then DigitsValue(first) else 0))
            && (key == "identityfile" ==> o == DEFAULTS.(identityFile := ExpandHome(v, home)))
            && (key == "proxyjump" ==> o == DEFAULTS.(proxyJump := WithoutSpaces(v)))
            && (key == "forwardagent" ==> o == DEFAULTS.(forwardAgent := Some(IsYes(first))))
            && (key == "localforward" ==>
                  o == DEFAULTS.(localForwards := match LocalForwards.NormalizeLocalForward(v)
                                                  case None => []
                                                  case Some(f) => [f]))
  {
    LineMeans(line, word, v);
    OneLineReading(host, home, line, o);
    hide ParseLine, Says, Reading, Words, ExpandHome, WithoutSpaces, LocalForwards.NormalizeLocalForward;
    hide IsYes, Given, Get, DigitsValue, Numeric, KeyOf;
    KeysByName();
    if ToLower(word) != "host" {
      OneOption(home, ParseLine(line), o);
    }
  }

  /** The seven names. */
  lemma {:induction false} KeysByName()
    ensures KeyOf("hostname") == One(HostName) && KeyOf("user") == One(User) && KeyOf("port") == One(Port)
    ensures KeyOf("identityfile") == One(IdentityFile) && KeyOf("proxyjump") == One(ProxyJump)
    ensures KeyOf("forwardagent") == One(ForwardAgent) && KeyOf("localforward") == LocalForward
  {
  }

  /** The record that one setting makes of the defaults. */
  lemma {:induction false} OneOption(home: string, line: Line, o: Options)
    requires line.Setting? && (forall k: Scalar :: Get(o, k) == Given(k, line, home).GetOr(Get(DEFAULTS, k)))
    requires o.localForwards == match GivenForward(line) { case None => [] case Some(f) => [f] }
    ensures match line.key
            case One(HostName) => o == DEFAULTS.(hostName := line.value)
            case One(User) => o == DEFAULTS.(user := line.value)
            case One(Port) => o == DEFAULTS.(port := if Numeric(line.word) then DigitsValue(line.word) else 0)
            case One(IdentityFile) => o == DEFAULTS.(identityFile := ExpandHome(line.value, home))
            case One(ProxyJump) => o == DEFAULTS.(proxyJump := WithoutSpaces(line.value))
            case One(ForwardAgent) => o == DEFAULTS.(forwardAgent := Some(IsYes(line.word)))
            case LocalForward =>
              o == DEFAULTS.(localForwards := match LocalForwards.NormalizeLocalForward(line.value)
                                              case None => []
                                              case Some(f) => [f])
            case Unknown => o == DEFAULTS
  {
    hide ExpandHome, WithoutSpaces, LocalForwards.NormalizeLocalForward, DigitsValue, Numeric, IsYes;
    forall k: Scalar
      ensures Get(o, k) == Get(Apply(DEFAULTS, line, home), k)
    {
      ApplyGives(DEFAULTS, line, home, k);
    }
    ApplyGives(DEFAULTS, line, home, HostName);
    OptionsAreTheirFields(o, Apply(DEFAULTS, line, home));
  }

  /** A setting under a Host line counts exactly if one of its patterns selects the host. */
  lemma {:induction false} HostBlock(
    host: string, home: string, top: string, hostWord: string, patterns: string,
    line: string, word: string, v: string, o: Options, o1: Options)
    requires Says(top, hostWord, patterns) && ToLower(hostWord) == "host"
    requires Says(line, word, v) && ToLower(word) != "host"
    requires Reading([top, line], host, home, 2, o) && Reading([line], host, home, 1, o1)
    ensures o == if Globs.HostSelected(Words(patterns), host) then o1 else DEFAULTS
  {
    LineMeans(top, hostWord, patterns);
    LineMeans(line, word, v);
    OneLineReading(host, home, line, o1);
    var lines := [top, line];
    hide ParseLine, Given, GivenForward, Says, KeyOf, Words, Globs.HostSelected;
    SecondLine(host, home, lines);
    var effect := Globs.HostSelected(Words(patterns), host);
    var expected := if effect then o1 else DEFAULTS;
    forall k: Scalar
      ensures Get(o, k) == Get(expected, k)
    {
    }
    OptionsAreTheirFields(o, expected);
  }

  lemma {:induction false} SecondLine(host: string, home: string, lines: seq<string>)
    requires |lines| == 2 && ParseLine(lines[0]).HostLine?
    ensures var effect := Globs.HostSelected(ParseLine(lines[0]).patterns, host);
            && (forall k: Scalar :: LastOf(lines, host, home, k, 2)
                                    == if effect then Given(k, ParseLine(lines[1]), home) else None)
            && ForwardsOf(lines, host, 2)
               == match GivenForward(ParseLine(lines[1])) {
                    case None => []
                    case Some(f) => if effect then [f] else []
                  }
  {
    hide ParseLine, Globs.HostSelected;
    assert HostBefore(lines, 1) == Some(0);
    assert ForwardsOf(lines, host, 0) == [] && ForwardsOf(lines, host, 1) == [];
    forall k: Scalar
      ensures LastOf(lines, host, home, k, 1) == None
    {
      assert LastOf(lines, host, home, k, 0) == None;
    }
  }
}
