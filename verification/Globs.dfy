/** The host patterns of the configuration file: a matcher that returns to its last star. */
module Globs {
  import opened Strings

  /** What a pattern means: `*` is any string, `?` any character, the rest themselves. */
  predicate Glob(p: string, t: string)
    decreases |p| + |t|
  {
    if p == "" then t == ""
    else if p[0] == '*' then Glob(p[1..], t) || (t != "" && Glob(p, t[1..]))
    else t != "" && Fits(p[0], t[0]) && Glob(p[1..], t[1..])
  }

  predicate Fits(pc: char, tc: char) {
    pc == '?' || pc == tc
  }

  predicate AllStars(p: string) {
    forall i :: 0 <= i < |p| ==> p[i] == '*'
  }

  /** The matcher from any point on: positions pi and ti, and the last star met at ti == mark. */
  predicate Search(p: string, t: string, pi: nat, ti: nat, star: int, mark: nat)
    requires -1 <= star < pi <= |p| || (star == -1 && pi == 0)
    requires mark <= ti <= |t|
    decreases |p| - star, |t| - mark, |t| - ti
  {
    if ti == |t| then AllStars(p[pi..])
    else if pi < |p| && Fits(p[pi], t[ti]) then Search(p, t, pi + 1, ti + 1, star, mark)
    else if pi < |p| && p[pi] == '*' then Search(p, t, pi + 1, ti, pi, ti)
    else star >= 0 && Search(p, t, star + 1, mark + 1, star, mark + 1)
  }

  predicate Matches(p: string, t: string) {
    Search(p, t, 0, 0, -1, 0)
  }

  method MatchGlob(pattern: string, text: string) returns (matched: bool)
    ensures matched == Matches(pattern, text)
    ensures '*' !in text ==> matched == Glob(pattern, text)
    ensures matched ==> Glob(pattern, text)
  {
    var p, t, star, mark := 0, 0, -1, 0;
    NeverOverAccepts(pattern, text);
    if '*' !in text {
      MatchesIsGlob(pattern, text);
    }
    while t < |text|
      invariant -1 <= star < p <= |pattern| || (star == -1 && p == 0)
      invariant 0 <= mark <= t <= |text|
      invariant Matches(pattern, text) == Search(pattern, text, p, t, star, mark)
      decreases |pattern| - star, |text| - mark, |text| - t
    {
      if p < |pattern| && (pattern[p] == '?' || pattern[p] == text[t]) {
        p, t := p + 1, t + 1;
      } else if p < |pattern| && pattern[p] == '*' {
        star, p, mark := p, p + 1, t;
      } else if star != -1 {
        mark := mark + 1;
        p, t := star + 1, mark;
      } else {
        return false;
      }
    }
    while p < |pattern| && pattern[p] == '*'
      invariant 0 <= p <= |pattern|
      invariant Matches(pattern, text) == AllStars(pattern[p..])
    {
      assert pattern[p..] == [pattern[p]] + pattern[p + 1..];
      p := p + 1;
    }
    if p < |pattern| {
      assert pattern[p..][0] == pattern[p];
    }
    return p == |pattern|;
  }

  // ---------- texts without a star ----------

  /** Past p[a..b], which has no star, the text has moved on by as many characters. */
  lemma {:induction false} Peel(p: string, t: string, a: nat, b: nat, k: nat)
    requires a <= b <= |p| && k <= |t| && '*' !in p[a..b]
    requires Glob(p[a..], t[k..])
    ensures k + b - a <= |t| && Glob(p[b..], t[k + b - a..])
    decreases b - a
  {
    if a < b {
      assert p[a] == p[a..b][0] && p[a + 1..b] == p[a..b][1..];
      assert p[a..][1..] == p[a + 1..] && t[k..][1..] == t[k + 1..];
      Peel(p, t, a + 1, b, k + 1);
    }
  }

  /** p[a..b] has no star and fits the text from k on. */
  predicate Segment(p: string, t: string, a: nat, b: nat, k: nat) {
    && a <= b <= |p| && k + b - a <= |t|
    && forall d :: a <= d < b ==> p[d] != '*' && Fits(p[d], t[k + d - a])
  }

  lemma {:induction false} Unpeel(p: string, t: string, a: nat, b: nat, k: nat)
    requires Segment(p, t, a, b, k) && Glob(p[b..], t[k + b - a..])
    ensures Glob(p[a..], t[k..])
    decreases b - a
  {
    if a < b {
      Unpeel(p, t, a + 1, b, k + 1);
      assert p[a..][1..] == p[a + 1..] && t[k..][1..] == t[k + 1..];
    }
  }

  lemma {:induction false} StarSkips(p: string, t: string, s: nat, i: nat, j: nat)
    requires s < |p| && p[s] == '*' && i <= j <= |t| && Glob(p[s..], t[j..])
    ensures Glob(p[s..], t[i..])
    decreases j - i
  {
    if i < j {
      StarSkips(p, t, s, i + 1, j);
      assert t[i..][1..] == t[i + 1..];
    }
  }

  /** A match from the last star on comes with one of what follows it, at or after k. */
  lemma {:induction false} StarLandsAt(p: string, t: string, s: nat, k: nat) returns (j: nat)
    requires s < |p| && p[s] == '*' && k <= |t| && Glob(p[s..], t[k..])
    ensures k <= j <= |t| && Glob(p[s + 1..], t[j..])
    decreases |t| - k
  {
    assert p[s..][1..] == p[s + 1..];
    if Glob(p[s + 1..], t[k..]) {
      j := k;
    } else {
      assert t[k..][1..] == t[k + 1..];
      j := StarLandsAt(p, t, s, k + 1);
    }
  }

  /** Where a second star follows, nothing is lost by fixing what the first one stood for. */
  lemma {:induction false} LastStarSuffices(p: string, t: string, star: nat, pi: nat, mark: nat)
    requires star < pi < |p| && p[star] == '*' && p[pi] == '*' && Segment(p, t, star + 1, pi, mark)
    ensures Glob(p[star..], t[mark..]) <==> Glob(p[pi..], t[mark + pi - star - 1..])
  {
    var ti := mark + pi - star - 1;
    assert p[star..][1..] == p[star + 1..];
    if Glob(p[star..], t[mark..]) {
      var j := StarLandsAt(p, t, star, mark);
      Peel(p, t, star + 1, pi, j);
      StarSkips(p, t, pi, ti, j + pi - star - 1);
    }
    if Glob(p[pi..], t[ti..]) {
      Unpeel(p, t, star + 1, pi, mark);
    }
  }

  /** At the end of the text, too, the star can only stand for what it does. */
  lemma {:induction false} EndSuffices(p: string, t: string, star: nat, pi: nat, mark: nat)
    requires star < pi <= |p| && p[star] == '*' && Segment(p, t, star + 1, pi, mark)
    requires mark + pi - star - 1 == |t|
    ensures Glob(p[star..], t[mark..]) <==> Glob(p[pi..], "")
  {
    assert p[star..][1..] == p[star + 1..];
    assert t[|t|..] == "";
    if Glob(p[star..], t[mark..]) {
      var j := StarLandsAt(p, t, star, mark);
      Peel(p, t, star + 1, pi, j);
    }
    if Glob(p[pi..], "") {
      Unpeel(p, t, star + 1, pi, mark);
    }
  }

  lemma {:induction false} OnlyStarsMatchNothing(p: string)
    ensures Glob(p, "") <==> AllStars(p)
  {
    if p != "" {
      OnlyStarsMatchNothing(p[1..]);
      assert AllStars(p) <==> p[0] == '*' && AllStars(p[1..]) by {
        assert p == [p[0]] + p[1..];
      }
    }
  }

  /** A mismatch after the segment rules out this place for the star. */
  lemma {:induction false} Mismatch(p: string, t: string, star: nat, pi: nat, mark: nat)
    requires star < pi <= |p| && p[star] == '*' && Segment(p, t, star + 1, pi, mark)
    requires var ti := mark + pi - star - 1; ti < |t| && !Glob(p[pi..], t[ti..])
    ensures Glob(p[star..], t[mark..]) <==> Glob(p[star..], t[mark + 1..])
  {
    assert p[star..][1..] == p[star + 1..] && t[mark..][1..] == t[mark + 1..];
    if Glob(p[star + 1..], t[mark..]) {
      Peel(p, t, star + 1, pi, mark);
    }
  }

  lemma {:induction false} SearchIsGlob(p: string, t: string, pi: nat, ti: nat, star: int, mark: nat)
    requires '*' !in t
    requires -1 <= star < pi <= |p| || (star == -1 && pi == 0)
    requires mark <= ti <= |t|
    requires star >= 0 ==>
               p[star] == '*' && ti == mark + pi - star - 1 && Segment(p, t, star + 1, pi, mark)
    ensures Search(p, t, pi, ti, star, mark)
        <==> if star >= 0 then Glob(p[star..], t[mark..]) else Glob(p[pi..], t[ti..])
    decreases |p| - star, |t| - mark, |t| - ti
  {
    if ti == |t| {
      assert t[ti..] == "";
      OnlyStarsMatchNothing(p[pi..]);
      if star >= 0 {
        EndSuffices(p, t, star, pi, mark);
      }
    } else if pi < |p| && Fits(p[pi], t[ti]) {
      assert p[pi] != '*';
      assert p[pi..][1..] == p[pi + 1..] && t[ti..][1..] == t[ti + 1..];
      SearchIsGlob(p, t, pi + 1, ti + 1, star, mark);
    } else if pi < |p| && p[pi] == '*' {
      SearchIsGlob(p, t, pi + 1, ti, pi, ti);
      if star >= 0 {
        LastStarSuffices(p, t, star, pi, mark);
      }
    } else {
      assert !Glob(p[pi..], t[ti..]);
      if star >= 0 {
        Mismatch(p, t, star, pi, mark);
        SearchIsGlob(p, t, star + 1, mark + 1, star, mark + 1);
      }
    }
  }

  lemma {:induction false} MatchesIsGlob(p: string, t: string)
    requires '*' !in t
    ensures Matches(p, t) <==> Glob(p, t)
  {
    SearchIsGlob(p, t, 0, 0, -1, 0);
    assert p[0..] == p && t[0..] == t;
  }

  // ---------- any text ----------

  /**
   * From any state of the loop, success means a match: of what is left, or of the last star
   * standing for at least one character more.
   */
  lemma {:induction false} SearchIsSound(p: string, t: string, pi: nat, ti: nat, star: int, mark: nat)
    requires -1 <= star < pi <= |p| || (star == -1 && pi == 0)
    requires mark <= ti <= |t| && (star >= 0 ==> p[star] == '*')
    requires Search(p, t, pi, ti, star, mark)
    ensures Glob(p[pi..], t[ti..]) || (star >= 0 && mark < |t| && Glob(p[star..], t[mark + 1..]))
    decreases |p| - star, |t| - mark, |t| - ti
  {
    hide Glob;
    if ti == |t| {
      OnlyStarsMatchNothing(p[pi..]);
      assert t[ti..] == "";
    } else if pi < |p| && Fits(p[pi], t[ti]) {
      SearchIsSound(p, t, pi + 1, ti + 1, star, mark);
      FitsThenMatches(p, t, pi, ti);
    } else if pi < |p| && p[pi] == '*' {
      SearchIsSound(p, t, pi + 1, ti, pi, ti);
      StarThenMatches(p, t, pi, ti);
    } else {
      SearchIsSound(p, t, star + 1, mark + 1, star, mark + 1);
      StarThenMatches(p, t, star, mark + 1);
    }
  }

  lemma {:induction false} StarThenMatches(p: string, t: string, a: nat, k: nat)
    requires a < |p| && p[a] == '*' && k <= |t|
    ensures Glob(p[a + 1..], t[k..]) || (k < |t| && Glob(p[a..], t[k + 1..])) ==> Glob(p[a..], t[k..])
  {
    assert p[a..][1..] == p[a + 1..];
    if k < |t| {
      assert t[k..][1..] == t[k + 1..];
    }
  }

  /** A character that fits may itself be a star, which then stands for it. */
  lemma {:induction false} FitsThenMatches(p: string, t: string, a: nat, k: nat)
    requires a < |p| && k < |t| && Fits(p[a], t[k])
    ensures Glob(p[a + 1..], t[k + 1..]) ==> Glob(p[a..], t[k..])
  {
    if p[a] == '*' {
      StarThenMatches(p, t, a, k + 1);
      StarThenMatches(p, t, a, k);
    } else {
      assert p[a..][1..] == p[a + 1..] && t[k..][1..] == t[k + 1..];
    }
  }

  /** Whatever the text, the matcher accepts no pattern that does not match it. */
  lemma {:induction false} NeverOverAccepts(p: string, t: string)
    ensures Matches(p, t) ==> Glob(p, t)
  {
    if Matches(p, t) {
      SearchIsSound(p, t, 0, 0, -1, 0);
      assert p[0..] == p && t[0..] == t;
    }
  }

  // ---------- texts with a star ----------

  /** A pattern that starts with the text's first k characters goes past them. */
  lemma {:induction false} SearchPrefix(p: string, t: string, i: nat, k: nat)
    requires i <= k <= |p| && k <= |t| && p[..k] == t[..k]
    ensures Search(p, t, i, i, -1, 0) == Search(p, t, k, k, -1, 0)
    decreases k - i
  {
    if i < k {
      assert p[i] == p[..k][i] == t[..k][i] == t[i];
      SearchPrefix(p, t, i + 1, k);
    }
  }

  lemma {:induction false} GlobPrefix(p: string, t: string, k: nat)
    requires k <= |p| && k <= |t| && p[..k] == t[..k] && '*' !in p[..k]
    requires Glob(p[k..], t[k..])
    ensures Glob(p, t)
  {
    assert forall d :: 0 <= d < k ==> p[d] == p[..k][d] && t[d] == t[..k][d];
    Unpeel(p, t, 0, k, 0);
    assert p[0..] == p && t[0..] == t;
  }

  lemma {:induction false} StarMatchesAll(t: string)
    ensures Glob("*", t)
  {
    assert "*"[1..] == "";
    if t != "" {
      StarMatchesAll(t[1..]);
    }
  }

  /** The pattern that goes wrong on a text whose first star is at k. */
  function Misled(t: string, k: nat): string
    requires k < |t|
  {
    t[..k] + if k + 1 < |t| then "*" else "*?"
  }

  /** The star of the text is taken for the pattern's own, which is then used up. */
  lemma {:induction false} StarInTextMisleads(t: string, k: nat)
    requires k < |t| && t[k] == '*' && '*' !in t[..k]
    ensures Glob(Misled(t, k), t) && !Matches(Misled(t, k), t)
  {
    var p := Misled(t, k);
    assert p[..k] == t[..k];
    assert p[k..] == if k + 1 < |t| then "*" else "*?";
    SearchPrefix(p, t, 0, k);
    assert p[k] == '*';
    if k + 1 < |t| {
      StarMatchesAll(t[k..]);
    } else {
      assert p[k + 1..][0] == '?';
      assert Glob("*?", "*") by {
        assert "*?"[1..] == "?" && "?"[1..] == "" && "*"[1..] == "";
      }
      assert t[k..] == "*";
    }
    GlobPrefix(p, t, k);
  }

  function FirstStar(t: string): (k: nat)
    requires '*' in t
    ensures k < |t| && t[k] == '*' && '*' !in t[..k]
  {
    if t[0] == '*' then 0 else
      var k := FirstStar(t[1..]);
      assert t[..k + 1] == [t[0]] + t[1..][..k];
      k + 1
  }

  /** The matcher is right about a text, whatever the pattern, exactly if the text has no star. */
  lemma {:induction false} RightExactlyWithoutStars(t: string)
    ensures (forall p: string :: Matches(p, t) == Glob(p, t)) <==> '*' !in t
  {
    if '*' in t {
      StarInTextMisleads(t, FirstStar(t));
    } else {
      forall p: string
        ensures Matches(p, t) == Glob(p, t)
      {
        MatchesIsGlob(p, t);
      }
    }
  }

  // ---------- host lines ----------


  /** A pattern that can select a host: not empty, and negated ones are passed over. */
  predicate Selects(pattern: string, host: string) {
    pattern != "" && pattern[0] != '!' && Glob(ToLower(pattern), ToLower(host))
  }

  predicate HostSelected(patterns: seq<string>, host: string) {
    exists i :: 0 <= i < |patterns| && patterns[i] != "" && patterns[i][0] != '!'
                && Matches(ToLower(patterns[i]), ToLower(host))
  }

  method HostMatches(patterns: seq<string>, host: string) returns (matched: bool)
    ensures matched == HostSelected(patterns, host)
    ensures matched ==> exists i :: 0 <= i < |patterns| && Selects(patterns[i], host)
    ensures '*' !in host ==> (matched <==> exists i :: 0 <= i < |patterns| && Selects(patterns[i], host))
  {
    HostSelectedMeans(patterns, host);
    var lowered := ToLower(host);
    for i := 0 to |patterns|
      invariant forall j :: 0 <= j < i ==>
        patterns[j] == "" || patterns[j][0] == '!' || !Matches(ToLower(patterns[j]), lowered)
    {
      if patterns[i] == "" || patterns[i][0] == '!' {
        continue;
      }
      var m := MatchGlob(ToLower(patterns[i]), lowered);
      if m {
        return true;
      }
    }
    return false;
  }

  lemma {:induction false} HostSelectedMeans(patterns: seq<string>, host: string)
    ensures HostSelected(patterns, host) ==> exists i :: 0 <= i < |patterns| && Selects(patterns[i], host)
    ensures '*' !in host ==>
              (HostSelected(patterns, host) <==> exists i :: 0 <= i < |patterns| && Selects(patterns[i], host))
  {
    var lowered := ToLower(host);
    forall i | 0 <= i < |patterns|
      ensures Matches(ToLower(patterns[i]), lowered) ==> Glob(ToLower(patterns[i]), lowered)
      ensures '*' !in host && Glob(ToLower(patterns[i]), lowered) ==> Matches(ToLower(patterns[i]), lowered)
    {
      NeverOverAccepts(ToLower(patterns[i]), lowered);
      if '*' !in host {
        assert '*' !in lowered;
        MatchesIsGlob(ToLower(patterns[i]), lowered);
      }
    }
    if HostSelected(patterns, host) {
      var i :| 0 <= i < |patterns| && patterns[i] != "" && patterns[i][0] != '!'
               && Matches(ToLower(patterns[i]), lowered);
      assert Selects(patterns[i], host);
    }
    if exists i :: 0 <= i < |patterns| && Selects(patterns[i], host) {
      var i :| 0 <= i < |patterns| && Selects(patterns[i], host);
      assert '*' !in host ==> patterns[i] != "" && Matches(ToLower(patterns[i]), lowered);
    }
  }
}
