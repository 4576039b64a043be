/** The greedy matcher for test filters: '*' stands for any text, '?' for any character. */
module Glob {

  /** Lower case of the 26 letters A to Z, at 65 to 90; other characters stay. */
  function ToLower(c: char): (r: char)
    ensures r as int == c as int + if 65 <= c as int <= 90 then 32 else 0
  {
    if 'A' <= c <= 'Z' then c - 'A' + 'a' else c
  }

  predicate SameChar(a: char, b: char, caseSensitive: bool) {
    if caseSensitive then a == b else ToLower(a) == ToLower(b)
  }

  /** What a pattern means. */
  predicate Matches(s: string, p: string, caseSensitive: bool)
    decreases |p|, |s|
  {
    if p == "" then s == ""
    else if p[0] == '*' then
      Matches(s, p[1..], caseSensitive) || (s != "" && Matches(s[1..], p, caseSensitive))
    else
      s != "" && (p[0] == '?' || SameChar(p[0], s[0], caseSensitive)) && Matches(s[1..], p[1..], caseSensitive)
  }

  // ----- facts about the meaning ---------------------------------------------

  predicate AllStars(p: string) {
    forall i :: 0 <= i < |p| ==> p[i] == '*'
  }

  /** How many characters a match takes at least. */
  function Needs(p: string): nat {
    if p == "" then 0 else (if p[0] == '*' then 0 else 1) + Needs(p[1..])
  }

  lemma {:induction false} MatchTakes(s: string, p: string, cs: bool)
    requires Matches(s, p, cs)
    ensures Needs(p) <= |s|
    decreases |p|, |s|
  {
    if p != "" {
      if p[0] == '*' {
        if Matches(s, p[1..], cs) {
          MatchTakes(s, p[1..], cs);
        } else {
          MatchTakes(s[1..], p, cs);
        }
      } else {
        MatchTakes(s[1..], p[1..], cs);
      }
    }
  }

  lemma {:induction false} EmptyMatch(p: string, cs: bool)
    ensures Matches("", p, cs) <==> AllStars(p)
  {
    if p != "" {
      EmptyMatch(p[1..], cs);
      assert AllStars(p) <==> p[0] == '*' && AllStars(p[1..]);
    }
  }

  /** A star takes any text in front of a match. */
  lemma {:induction false} StarTakes(s: string, p: string, k: nat, cs: bool)
    requires k <= |s| && p != "" && p[0] == '*' && Matches(s[k..], p, cs)
    ensures Matches(s, p, cs)
  {
    if k == 0 {
      assert s[0..] == s;
    } else {
      assert s[1..][k - 1..] == s[k..];
      StarTakes(s[1..], p, k - 1, cs);
    }
  }

  /** A star matches exactly if the rest of the pattern matches somewhere. */
  lemma {:induction false} StarMeans(s: string, p: string, cs: bool)
    requires p != "" && p[0] == '*'
    ensures Matches(s, p, cs) <==> exists k :: 0 <= k <= |s| && Matches(s[k..], p[1..], cs)
    decreases |s|
  {
    assert s[0..] == s;
    if s != "" {
      StarMeans(s[1..], p, cs);
      if k :| 0 <= k <= |s[1..]| && Matches(s[1..][k..], p[1..], cs) {
        assert s[1..][k..] == s[k + 1..];
      }
      if k :| 0 <= k <= |s| && Matches(s[k..], p[1..], cs) {
        assert k > 0 ==> s[k..] == s[1..][k - 1..];
      }
    }
  }

  /** A part of a pattern without stars lies on a text of the same length. */
  predicate Lies(s: string, p: string, cs: bool) {
    |s| == |p| && forall i :: 0 <= i < |p| ==> p[i] != '*' && (p[i] == '?' || SameChar(p[i], s[i], cs))
  }

  lemma {:induction false} LiesThen(s: string, p: string, q: string, n: nat, cs: bool)
    requires n <= |s| && n <= |p| && Lies(s[..n], p[..n], cs) && q == p[n..]
    ensures Matches(s, p, cs) <==> Matches(s[n..], q, cs)
    decreases n
  {
    if n == 0 {
      assert s[0..] == s && p[0..] == p;
    } else {
      assert s[..n][0] == s[0] && p[..n][0] == p[0];
      assert s[1..][..n - 1] == s[..n][1..] && p[1..][..n - 1] == p[..n][1..];
      assert s[1..][n - 1..] == s[n..] && p[1..][n - 1..] == p[n..];
      LiesThen(s[1..], p[1..], q, n - 1, cs);
    }
  }

  /** Where a part of length n without stars is followed by a mismatch, nothing matches. */
  lemma Mismatch(s: string, p: string, n: nat, cs: bool)
    requires n < |s| && n <= |p| && Lies(s[..n], p[..n], cs)
    requires n < |p| ==> p[n] != '*' && p[n] != '?' && !SameChar(p[n], s[n], cs)
    ensures !Matches(s, p, cs)
  {
    LiesThen(s, p, p[n..], n, cs);
  }

  /** The last star is the only one that counts: with the part between two stars
      lying on the text as far left as possible, nothing is lost by going on from
      there with the second star. */
  lemma LastStarOnly(s: string, p: string, n: nat, cs: bool)
    requires p != "" && p[0] == '*' && n <= |s| && n + 1 < |p| && p[n + 1] == '*'
    requires Lies(s[..n], p[1..][..n], cs)
    ensures Matches(s, p, cs) <==> Matches(s[n..], p[n + 1..], cs)
  {
    var q := p[n + 1..];
    assert p[1..][n..] == q;
    assert s[0..] == s;
    StarMeans(s, p, cs);
    if Matches(s[n..], q, cs) {
      LiesThen(s, p[1..], q, n, cs);
      assert Matches(s[0..], p[1..], cs);
    }
    if Matches(s, p, cs) {
      var k :| 0 <= k <= |s| && Matches(s[k..], p[1..], cs);
      PartTakes(s[k..], p[1..], n, cs);
      assert s[k..][n..] == s[k + n..] == s[n..][k..];
      StarTakes(s[n..], q, k, cs);
    }
  }

  /** A match of a pattern that begins with n plain characters takes n characters. */
  lemma {:induction false} PartTakes(s: string, p: string, n: nat, cs: bool)
    requires n <= |p| && (forall i :: 0 <= i < n ==> p[i] != '*') && Matches(s, p, cs)
    ensures n <= |s| && Matches(s[n..], p[n..], cs)
    decreases n
  {
    if n == 0 {
      assert s[0..] == s && p[0..] == p;
    } else {
      PartTakes(s[1..], p[1..], n - 1, cs);
      assert p[1..][n - 1..] == p[n..] && s[1..][n - 1..] == s[n..];
    }
  }

  lemma {:induction false} NeedsConcat(p: string, n: nat)
    requires n <= |p| && forall i :: 0 <= i < n ==> p[i] != '*'
    ensures Needs(p) == n + Needs(p[n..])
    decreases n
  {
    if n == 0 {
      assert p[0..] == p;
    } else {
      assert p[1..][n - 1..] == p[n..];
      NeedsConcat(p[1..], n - 1);
    }
  }

  lemma {:induction false} NeedsNothing(p: string)
    ensures Needs(p) == 0 <==> AllStars(p)
  {
    if p != "" {
      NeedsNothing(p[1..]);
      assert AllStars(p) <==> p[0] == '*' && AllStars(p[1..]);
    }
  }

  /** At the end of the text: the part after the last star lies on the end of it,
      so a match needs the rest of the pattern to be stars. */
  lemma AtEnd(s: string, p: string, n: nat, cs: bool)
    requires p != "" && p[0] == '*' && |s| == n && n + 1 <= |p| && Lies(s, p[1..][..n], cs)
    ensures Matches(s, p, cs) <==> AllStars(p[n + 1..])
  {
    var q := p[n + 1..];
    assert p[1..][n..] == q && s[n..] == "" && s[0..] == s && s[..n] == s;
    EmptyMatch(q, cs);
    LiesThen(s, p[1..], q, n, cs);
    StarMeans(s, p, cs);
    if Matches(s, p, cs) {
      var k :| 0 <= k <= |s| && Matches(s[k..], p[1..], cs);
      MatchTakes(s[k..], p[1..], cs);
      assert forall i :: 0 <= i < n ==> p[1..][..n][i] == p[1..][i];
      NeedsConcat(p[1..], n);
      NeedsNothing(q);
    } else {
      assert !Matches(s[0..], p[1..], cs);
    }
  }

  // ----- the two case modes --------------------------------------------------

  /** What one character of a pattern stands for, letter case regarded. */
  predicate StandsFor(c: char, t: string) {
    c == '*' || (|t| == 1 && (c == '?' || t[0] == c))
  }

  function Joined(ts: seq<string>): string {
    if ts == [] then "" else ts[0] + Joined(ts[1..])
  }

  ghost predicate SplitBy(s: string, p: string, ts: seq<string>) {
    |ts| == |p| && Joined(ts) == s && forall i :: 0 <= i < |p| ==> StandsFor(p[i], ts[i])
  }

  /** A text matches a pattern exactly if it falls into pieces, one for each character of the
      pattern: any text for a star, any character for a question mark, and else this character. */
  lemma {:induction false} MatchesIffSplit(s: string, p: string)
    ensures Matches(s, p, true) <==> exists ts :: SplitBy(s, p, ts)
    decreases |p|
  {
    hide Matches;
    if p == "" {
      NoPattern(s, true);
      assert s == "" ==> SplitBy(s, p, []);
    } else if p[0] == '*' {
      StarMeans(s, p, true);
      if k :| 0 <= k <= |s| && Matches(s[k..], p[1..], true) {
        MatchesIffSplit(s[k..], p[1..]);
        var ts :| SplitBy(s[k..], p[1..], ts);
        SplitMore(s[..k], s[k..], p, ts);
        assert s == s[..k] + s[k..];
      }
      if ts :| SplitBy(s, p, ts) {
        SplitLess(s, p, ts);
        MatchesIffSplit(s[|ts[0]|..], p[1..]);
      }
    } else {
      OneCharacter(s, p);
      if Matches(s, p, true) {
        MatchesIffSplit(s[1..], p[1..]);
        var ts :| SplitBy(s[1..], p[1..], ts);
        SplitMore(s[..1], s[1..], p, ts);
        assert s == s[..1] + s[1..];
      }
      if ts :| SplitBy(s, p, ts) {
        SplitLess(s, p, ts);
        MatchesIffSplit(s[1..], p[1..]);
      }
    }
  }

  lemma OneCharacter(s: string, p: string)
    requires p != "" && p[0] != '*'
    ensures Matches(s, p, true) <==> s != "" && StandsFor(p[0], s[..1]) && Matches(s[1..], p[1..], true)
  {
  }

  lemma NoPattern(s: string, cs: bool)
    ensures Matches(s, "", cs) <==> s == ""
  {
  }

  lemma SplitMore(t: string, s: string, p: string, ts: seq<string>)
    requires p != "" && StandsFor(p[0], t) && SplitBy(s, p[1..], ts)
    ensures SplitBy(t + s, p, [t] + ts)
  {
    assert ([t] + ts)[1..] == ts;
    assert forall i :: 0 < i < |p| ==> p[i] == p[1..][i - 1];
  }

  lemma SplitLess(s: string, p: string, ts: seq<string>)
    requires p != "" && SplitBy(s, p, ts)
    ensures StandsFor(p[0], ts[0]) && ts[0] <= s && SplitBy(s[|ts[0]|..], p[1..], ts[1..])
  {
  }

  /** A pattern of plain characters matches itself alone. */
  lemma {:induction false} PlainMatchesItself(s: string, p: string)
    requires forall i :: 0 <= i < |p| ==> p[i] != '*' && p[i] != '?'
    ensures Matches(s, p, true) <==> s == p
  {
    if p != "" {
      if s != "" {
        PlainMatchesItself(s[1..], p[1..]);
      }
      assert s == p <==> s != "" && s[0] == p[0] && s[1..] == p[1..];
    }
  }

  function Lowered(s: string): (r: string)
    ensures |r| == |s| && forall i :: 0 <= i < |s| ==> r[i] == ToLower(s[i])
  {
    seq(|s|, i requires 0 <= i < |s| => ToLower(s[i]))
  }

  /** Letter case is disregarded by lowering both, the text and the pattern. */
  lemma {:induction false} CaseIsLowered(s: string, p: string)
    ensures Matches(s, p, false) <==> Matches(Lowered(s), Lowered(p), true)
    decreases |p|, |s|
  {
    if p != "" {
      var lp, ls := Lowered(p), Lowered(s);
      assert Lowered(p[1..]) == lp[1..];
      CaseIsLowered(s, p[1..]);
      if s != "" {
        assert Lowered(s[1..]) == ls[1..];
        CaseIsLowered(s[1..], p);
        CaseIsLowered(s[1..], p[1..]);
      }
    }
  }

  // ----- the matcher ---------------------------------------------------------

  /** The last star seen is right before mp; the part of the pattern from mp to w
      lies on the text from cp - 1 to s. */
  ghost predicate LastStarAt(str: string, wild: string, cp: int, mp: int, s: int, w: int, cs: bool) {
    && 1 <= mp <= w <= |wild| && mp < |wild| && wild[mp - 1] == '*'
    && 1 <= cp <= s + 1 <= |str| + 1 && s - (cp - 1) == w - mp
    && Lies(str[cp - 1..s], wild[mp..w], cs)
  }

  /** The same, as seen from the last star. */
  lemma FromStar(str: string, wild: string, cp: int, mp: int, s: int, w: int, cs: bool)
    requires LastStarAt(str, wild, cp, mp, s, w, cs)
    ensures var t, p, n := str[cp - 1..], wild[mp - 1..], w - mp;
            && p != "" && p[0] == '*' && p[1..] == wild[mp..] && n <= |t| && n + 1 <= |p|
            && t[..n] == str[cp - 1..s] && p[1..][..n] == wild[mp..w]
            && t[n..] == str[s..] && p[1..][n..] == wild[w..] && p[n + 1..] == wild[w..]
            && (w < |wild| ==> p[1..][n] == p[n + 1] == wild[w]) && (s < |str| ==> t[n] == str[s])
  {
  }

  lemma NextStar(str: string, wild: string, cp: int, mp: int, s: int, w: int, cs: bool)
    requires LastStarAt(str, wild, cp, mp, s, w, cs) && w < |wild| && wild[w] == '*'
    ensures Matches(str[cp - 1..], wild[mp - 1..], cs) == Matches(str[s..], wild[w..], cs)
  {
    FromStar(str, wild, cp, mp, s, w, cs);
    LastStarOnly(str[cp - 1..], wild[mp - 1..], w - mp, cs);
  }

  /** After a mismatch the part is tried one character further on. */
  lemma GoOn(str: string, wild: string, cp: int, mp: int, s: int, w: int, cs: bool)
    requires LastStarAt(str, wild, cp, mp, s, w, cs) && s < |str|
    requires w < |wild| ==> wild[w] != '*' && wild[w] != '?' && !SameChar(wild[w], str[s], cs)
    ensures Matches(str[cp - 1..], wild[mp - 1..], cs) == Matches(str[cp..], wild[mp - 1..], cs)
  {
    FromStar(str, wild, cp, mp, s, w, cs);
    Mismatch(str[cp - 1..], wild[mp..], w - mp, cs);
    assert str[cp - 1..][1..] == str[cp..];
  }

  /** Before the first star the characters are compared one by one. */
  lemma FirstPart(str: string, wild: string, s: int, w: int, cs: bool)
    requires 0 <= s < |str| && 0 <= w <= |wild| && (w < |wild| ==> wild[w] != '*')
    ensures Matches(str[s..], wild[w..], cs) ==
            (w < |wild| && (SameChar(wild[w], str[s], cs) || wild[w] == '?')
             && Matches(str[s + 1..], wild[w + 1..], cs))
  {
    if w < |wild| {
      assert str[s..][1..] == str[s + 1..] && wild[w..][1..] == wild[w + 1..];
    }
  }

  lemma StepOn(str: string, wild: string, cp: int, mp: int, s: int, w: int, seen: bool, cs: bool)
    requires seen ==> LastStarAt(str, wild, cp, mp, s, w, cs)
    requires 0 <= s < |str| && 0 <= w < |wild| && wild[w] != '*' && (SameChar(wild[w], str[s], cs) || wild[w] == '?')
    ensures seen ==> LastStarAt(str, wild, cp, mp, s + 1, w + 1, cs)
  {
    if seen {
      assert str[cp - 1..s + 1] == str[cp - 1..s] + [str[s]] && wild[mp..w + 1] == wild[mp..w] + [wild[w]];
    }
  }

  /** The part after a star is empty at first. */
  lemma StarHere(str: string, wild: string, s: int, mp: int, cs: bool)
    requires 0 <= s <= |str| && 1 <= mp < |wild| && wild[mp - 1] == '*'
    ensures LastStarAt(str, wild, s + 1, mp, s, mp, cs)
  {
  }

  lemma StarAtEnd(s: string, p: string, cs: bool)
    requires p == "*"
    ensures Matches(s, p, cs)
  {
    assert s[|s|..] == "" && p[1..] == "";
    StarMeans(s, p, cs);
  }

  lemma Finish(str: string, wild: string, cp: int, mp: int, w: int, seen: bool, cs: bool)
    requires 0 <= w <= |wild|
    requires !seen ==> Matches(str, wild, cs) == Matches("", wild[w..], cs)
    requires seen ==> LastStarAt(str, wild, cp, mp, |str|, w, cs)
    requires seen ==> Matches(str, wild, cs) == Matches(str[cp - 1..], wild[mp - 1..], cs)
    ensures Matches(str, wild, cs) == AllStars(wild[w..])
  {
    if seen {
      FromStar(str, wild, cp, mp, |str|, w, cs);
      AtEnd(str[cp - 1..], wild[mp - 1..], w - mp, cs);
    } else {
      EmptyMatch(wild[w..], cs);
    }
  }

  method Wildcmp(str: string, wild: string, caseSensitive: bool) returns (r: bool)
    ensures r == Matches(str, wild, caseSensitive)
  {
    hide Matches, SameChar, LastStarAt;
    var s, w := 0, 0;
    assert str[0..] == str && wild[0..] == wild;
    while s < |str| && !(w < |wild| && wild[w] == '*')
      invariant 0 <= s == w <= |str| && w <= |wild|
      invariant Matches(str, wild, caseSensitive) == Matches(str[s..], wild[w..], caseSensitive)
    {
      FirstPart(str, wild, s, w, caseSensitive);
      if w == |wild| || (!SameChar(wild[w], str[s], caseSensitive) && wild[w] != '?') {
        return false;
      }
      w := w + 1;
      s := s + 1;
    }
    ghost var seen := false;
    var cp, mp := 0, 0;  // where to go on with the text and the pattern after the last star
    while s < |str|
      invariant 0 <= s <= |str| && 0 <= w <= |wild|
      invariant !seen ==> mp == cp == 0 && (s < |str| ==> w < |wild| && wild[w] == '*')
      invariant !seen ==> Matches(str, wild, caseSensitive) == Matches(str[s..], wild[w..], caseSensitive)
      invariant seen ==> 1 <= mp < |wild| && mp <= w && wild[mp - 1] == '*' && 1 <= cp <= s + 1
      invariant seen ==> LastStarAt(str, wild, cp, mp, s, w, caseSensitive)
      invariant seen ==> Matches(str, wild, caseSensitive) == Matches(str[cp - 1..], wild[mp - 1..], caseSensitive)
      decreases |wild| - mp, |str| + 1 - cp, |str| - s
    {
      if w < |wild| && wild[w] == '*' {
        if seen {
          NextStar(str, wild, cp, mp, s, w, caseSensitive);
        }
        w := w + 1;
        if w == |wild| {
          assert wild[w - 1..] == "*";
          StarAtEnd(str[s..], wild[w - 1..], caseSensitive);
          return true;
        }
        StarHere(str, wild, s, w, caseSensitive);
        seen, mp, cp := true, w, s + 1;
      } else if w < |wild| && (SameChar(wild[w], str[s], caseSensitive) || wild[w] == '?') {
        StepOn(str, wild, cp, mp, s, w, seen, caseSensitive);
        w := w + 1;
        s := s + 1;
      } else {
        GoOn(str, wild, cp, mp, s, w, caseSensitive);
        StarHere(str, wild, cp, mp, caseSensitive);
        w := mp;
        s := cp;
        cp := cp + 1;
      }
    }
    assert str[s..] == "";
    Finish(str, wild, cp, mp, w, seen, caseSensitive);
    r := OnlyStars(wild, w);
  }

  /** Whether nothing but stars is left of the pattern. */
  method OnlyStars(wild: string, from: int) returns (r: bool)
    requires 0 <= from <= |wild|
    ensures r == AllStars(wild[from..])
  {
    var w := from;
    while w < |wild| && wild[w] == '*'
      invariant from <= w <= |wild| && forall i :: from <= i < w ==> wild[i] == '*'
    {
      w := w + 1;
    }
    assert w < |wild| ==> wild[from..][w - from] != '*';
    r := w == |wild|;
  }

  /** The filters of a run: any of the patterns has to match; no filter at all
      matches everything or nothing, as the caller wishes. */
  method MatchesAny(name: string, filters: seq<string>, matchEmpty: bool, caseSensitive: bool) returns (r: bool)
    ensures r == ((filters == [] && matchEmpty) ||
                  exists i :: 0 <= i < |filters| && Matches(name, filters[i], caseSensitive))
  {
    if filters == [] && matchEmpty {
      return true;
    }
    for i := 0 to |filters|
      invariant forall j :: 0 <= j < i ==> !Matches(name, filters[j], caseSensitive)
    {
      var m := Wildcmp(name, filters[i], caseSensitive);
      if m {
        return true;
      }
    }
    return false;
  }
}
