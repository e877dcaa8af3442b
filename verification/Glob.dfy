/**
 The wildcard matcher behind signal search.

 The loop keeps one backtracking point only. It decides exactly LoopMatch, in which a star of
 the pattern that meets a literal star in the text eats that one character; on texts without
 a star that is the usual meaning of * and ?, and on every text it accepts nothing else.
 */
module Glob {

  /** The usual meaning of a pattern: * is any text, ? any character. */
  ghost predicate Matches(pattern: string, text: string)
    decreases |pattern|
  {
    if pattern == "" then text == ""
    else if pattern[0] == '*' then exists k :: 0 <= k <= |text| && Matches(pattern[1..], text[k..])
    else text != "" && (pattern[0] == '?' || pattern[0] == text[0]) && Matches(pattern[1..], text[1..])
  }

  /** The pattern and the text agree on their first characters without using a star. */
  predicate HeadsAgree(pattern: string, text: string) {
    pattern != "" && text != "" && (pattern[0] == '?' || pattern[0] == text[0])
  }

  /** What the loop decides. */
  ghost predicate LoopMatch(pattern: string, text: string)
    decreases |pattern|
  {
    if pattern == "" then text == ""
    else if HeadsAgree(pattern, text) then LoopMatch(pattern[1..], text[1..])
    else pattern[0] == '*' && exists k :: 0 <= k <= |text| && LoopMatch(pattern[1..], text[k..])
  }

  predicate StarFree(text: string) {
    forall i :: 0 <= i < |text| ==> text[i] != '*'
  }

  predicate AllStars(pattern: string) {
    forall i :: 0 <= i < |pattern| ==> pattern[i] == '*'
  }

  lemma {:induction false} EmptyText(pattern: string)
    ensures LoopMatch(pattern, "") <==> AllStars(pattern)
  {
    if pattern != "" {
      EmptyText(pattern[1..]);
      assert ""[0..] == "";
      assert AllStars(pattern) <==> pattern[0] == '*' && AllStars(pattern[1..]);
    }
  }

  /** Whatever a star pattern matches further on, it can match from here. */
  lemma {:induction false} StarReaches(rest: string, text: string, from: nat)
    requires from <= |text| && LoopMatch("*" + rest, text[from..])
    ensures exists k :: from <= k <= |text| && LoopMatch(rest, text[k..])
  {
    var p := "*" + rest;
    var t := text[from..];
    assert p[1..] == rest;
    if HeadsAgree(p, t) {
      assert t[1..] == text[from+1..];
    } else {
      var k :| 0 <= k <= |t| && LoopMatch(p[1..], t[k..]);
      assert t[k..] == text[from+k..];
    }
  }

  /** The rest of the pattern matches the rest of the text from some position on. */
  ghost predicate MatchesFrom(pattern: string, text: string, from: nat) {
    exists k :: from <= k <= |text| && LoopMatch(pattern, text[k..])
  }

  lemma MatchesFromHere(pattern: string, text: string, from: nat)
    requires from <= |text|
    ensures MatchesFrom(pattern, text, from) <==> LoopMatch(pattern, text[from..]) || MatchesFrom(pattern, text, from + 1)
  {
  }

  /** A step on equal heads keeps every later way of matching at or behind the text position. */
  lemma HeadsAgreeStep(pattern: string, text: string, t: nat)
    requires t < |text| && HeadsAgree(pattern, text[t..]) && MatchesFrom(pattern, text, t)
    ensures MatchesFrom(pattern[1..], text, t + 1)
  {
    var j :| t <= j <= |text| && LoopMatch(pattern, text[j..]);
    if HeadsAgree(pattern, text[j..]) {
      assert text[j..][1..] == text[j+1..];
    } else {
      assert pattern == "*" + pattern[1..];
      StarReaches(pattern[1..], text, j);
    }
  }

  method WildcardMatch(pattern: string, text: string) returns (matched: bool)
    ensures matched <==> LoopMatch(pattern, text)
    ensures matched ==> Matches(pattern, text)
    ensures StarFree(text) ==> (matched <==> Matches(pattern, text))
  {
    LoopMatchSound(pattern, text);
    if StarFree(text) { LoopMatchComplete(pattern, text); }
    matched := RunLoop(pattern, text);
  }

  method RunLoop(pattern: string, text: string) returns (matched: bool)
    ensures matched <==> LoopMatch(pattern, text)
  {
    hide LoopMatch, MatchesFrom;
    var p, t, star, retry := 0, 0, -1, 0;
    assert pattern[0..] == pattern && text[0..] == text;
    while t < |text|
      invariant 0 <= p <= |pattern| && 0 <= retry <= t <= |text| && -1 <= star < p
      invariant star >= 0 ==> pattern[star] == '*'
      invariant LoopMatch(pattern, text)
        <==> LoopMatch(pattern[p..], text[t..]) || (star >= 0 && MatchesFrom(pattern[star+1..], text, retry + 1))
      // Only the latest star matters: if trying it again helps, so does going on from here.
      invariant star >= 0 && MatchesFrom(pattern[star+1..], text, retry + 1) ==> MatchesFrom(pattern[p..], text, t)
      decreases |text| - retry, |pattern| - star, |text| - t
    {
      LoopMatchStep(pattern[p..], text, t);
      assert p < |pattern| ==> pattern[p..][1..] == pattern[p+1..];
      assert text[t..][1..] == text[t+1..];
      if p < |pattern| && (pattern[p] == '?' || pattern[p] == text[t]) {
        if star >= 0 && MatchesFrom(pattern[star+1..], text, retry + 1) {
          HeadsAgreeStep(pattern[p..], text, t);
        }
        p, t := p + 1, t + 1;
      } else if p < |pattern| && pattern[p] == '*' {
        if star >= 0 && MatchesFrom(pattern[star+1..], text, retry + 1) {
          StarReachesFrom(pattern[p..], text, t);
        }
        MatchesFromHere(pattern[p+1..], text, t);
        star, p, retry := p, p + 1, t;
      } else if star >= 0 {
        MatchesFromHere(pattern[star+1..], text, retry + 1);
        p, retry := star + 1, retry + 1;
        t := retry;
      } else {
        return false;
      }
    }
    assert text[t..] == "";
    AtEnd(pattern[p..], text);
    EmptyText(pattern[p..]);
    ghost var rest := pattern[p..];
    while p < |pattern| && pattern[p] == '*'
      invariant 0 <= p <= |pattern|
      invariant AllStars(rest) <==> AllStars(pattern[p..])
    {
      assert pattern[p..][1..] == pattern[p+1..];
      AllStarsStep(pattern[p..]);
      p := p + 1;
    }
    AllStarsStep(pattern[p..]);
    return p == |pattern|;
  }

  lemma AllStarsStep(pattern: string)
    ensures AllStars(pattern) <==> pattern == "" || (pattern[0] == '*' && AllStars(pattern[1..]))
  {
    if pattern != "" {
      assert pattern == [pattern[0]] + pattern[1..];
    }
  }

  lemma AtEnd(pattern: string, text: string)
    ensures MatchesFrom(pattern, text, |text|) <==> LoopMatch(pattern, "")
  {
    assert text[|text|..] == "";
  }

  lemma LoopMatchStep(pattern: string, text: string, t: nat)
    requires t < |text|
    ensures LoopMatch(pattern, text[t..])
      == (if pattern == "" then false
          else if HeadsAgree(pattern, text[t..]) then LoopMatch(pattern[1..], text[t..][1..])
          else pattern[0] == '*' && MatchesFrom(pattern[1..], text, t))
  {
    if pattern != "" && !HeadsAgree(pattern, text[t..]) && pattern[0] == '*' {
      if LoopMatch(pattern, text[t..]) {
        var k :| 0 <= k <= |text[t..]| && LoopMatch(pattern[1..], text[t..][k..]);
        assert text[t..][k..] == text[t+k..];
      }
      if MatchesFrom(pattern[1..], text, t) {
        var k :| t <= k <= |text| && LoopMatch(pattern[1..], text[k..]);
        assert text[t..][k-t..] == text[k..];
      }
    }
  }

  lemma StarReachesFrom(pattern: string, text: string, t: nat)
    requires pattern != "" && pattern[0] == '*' && MatchesFrom(pattern, text, t)
    ensures MatchesFrom(pattern[1..], text, t)
  {
    var j :| t <= j <= |text| && LoopMatch(pattern, text[j..]);
    assert pattern == "*" + pattern[1..];
    StarReaches(pattern[1..], text, j);
  }

  // --------------------------------------------------------- against the usual meaning

  lemma {:induction false} LoopMatchSound(pattern: string, text: string)
    ensures LoopMatch(pattern, text) ==> Matches(pattern, text)
    decreases |pattern|
  {
    if LoopMatch(pattern, text) && pattern != "" {
      if HeadsAgree(pattern, text) {
        LoopMatchSound(pattern[1..], text[1..]);
        assert pattern[0] == '*' ==> Matches(pattern[1..], text[1..]);
      } else {
        var k :| 0 <= k <= |text| && LoopMatch(pattern[1..], text[k..]);
        LoopMatchSound(pattern[1..], text[k..]);
      }
    }
  }

  lemma {:induction false} LoopMatchComplete(pattern: string, text: string)
    requires StarFree(text)
    ensures Matches(pattern, text) ==> LoopMatch(pattern, text)
    decreases |pattern|
  {
    if Matches(pattern, text) && pattern != "" {
      if pattern[0] == '*' {
        var k :| 0 <= k <= |text| && Matches(pattern[1..], text[k..]);
        LoopMatchComplete(pattern[1..], text[k..]);
      } else {
        LoopMatchComplete(pattern[1..], text[1..]);
      }
    }
  }

  lemma {:induction false} SamePrefix(x: string, pattern: string, text: string)
    ensures LoopMatch(x + pattern, x + text) <==> LoopMatch(pattern, text)
    ensures Matches(pattern, text) ==> Matches(x + pattern, x + text)
  {
    if x == "" {
      assert x + pattern == pattern && x + text == text;
    } else {
      assert (x + pattern)[1..] == x[1..] + pattern && (x + text)[1..] == x[1..] + text;
      SamePrefix(x[1..], pattern, text);
    }
  }

  lemma {:induction false} MatchesItself(text: string)
    requires StarFree(text)
    ensures Matches(text, text)
  {
    if text != "" {
      MatchesItself(text[1..]);
    }
  }

  lemma {:induction false} LengthsDiffer(pattern: string, text: string)
    requires StarFree(pattern) && |pattern| != |text|
    ensures !LoopMatch(pattern, text)
    decreases |pattern|
  {
    if pattern != "" && text != "" {
      LengthsDiffer(pattern[1..], text[1..]);
    }
  }

  /** A text with a star before x matches the pattern with *? before x, but the loop misses it. */
  lemma MissesPattern(before: string, after: string)
    requires StarFree(after)
    ensures Matches(before + ("*?" + after), before + ("*" + after))
    ensures !LoopMatch(before + ("*?" + after), before + ("*" + after))
  {
    var p, t := "*?" + after, "*" + after;
    assert p[1..] == "?" + after && t[1..] == after && t[0..] == t;
    assert ("?" + after)[1..] == after;
    MatchesItself(after);
    assert Matches("?" + after, t);
    LengthsDiffer("?" + after, after);
    SamePrefix(before, p, t);
  }

  /**
   The texts on which the matcher decides every pattern as * and ? are usually meant are
   exactly the texts without a star.
   */
  lemma ExactIffStarFree(text: string)
    ensures StarFree(text) <==> forall pattern :: LoopMatch(pattern, text) <==> Matches(pattern, text)
  {
    if StarFree(text) {
      forall pattern ensures LoopMatch(pattern, text) <==> Matches(pattern, text) {
        LoopMatchSound(pattern, text);
        LoopMatchComplete(pattern, text);
      }
    } else {
      var i := |text| - 1;
      while text[i] != '*'
        invariant 0 <= i < |text| && StarFree(text[i+1..])
        invariant !StarFree(text[..i+1])
        decreases i
      {
        i := i - 1;
      }
      MissesPattern(text[..i], text[i+1..]);
      assert text == text[..i] + ("*" + text[i+1..]);
    }
  }
}
