/** The `*`-only wildcard matcher (`glob_match` and `segment_matches` in
    `winreg-artifacts/src/path_expansion.rs`). */
module Glob {
  import opened Text

  /** The textbook definition: `*` matches any run of characters. */
  predicate Matches(pat: string, txt: string)
    decreases |pat| + |txt|
  {
    if pat == [] then txt == []
    else if pat[0] == '*' then Matches(pat[1..], txt) || (txt != [] && Matches(pat, txt[1..]))
    else txt != [] && pat[0] == txt[0] && Matches(pat[1..], txt[1..])
  }

  /** The definition says what it should: a leading `*` swallows some prefix. */
  lemma {:induction false} StarSwallows(pat: string, txt: string)
    requires pat != [] && pat[0] == '*'
    ensures Matches(pat, txt) <==> exists k | 0 <= k <= |txt| :: Matches(pat[1..], txt[k..])
  {
    assert txt[0..] == txt;
    if txt != [] {
      StarSwallows(pat, txt[1..]);
      assert forall k | 0 <= k <= |txt| - 1 :: txt[1..][k..] == txt[k + 1..];
      if k :| 0 <= k <= |txt| && Matches(pat[1..], txt[k..]) {
        if k > 0 {
          assert txt[1..][k - 1..] == txt[k..];
        }
      }
      if k :| 0 <= k <= |txt| - 1 && Matches(pat[1..], txt[1..][k..]) {
        assert Matches(pat[1..], txt[k + 1..]);
      }
    }
  }

  /** If a starred pattern matches a later suffix, it matches every earlier one. */
  lemma {:induction false} StarAbsorbs(pat: string, txt: string, i: nat, j: nat)
    requires pat != [] && pat[0] == '*'
    requires i <= j <= |txt| && Matches(pat, txt[j..])
    ensures Matches(pat, txt[i..])
    decreases j - i
  {
    if i < j {
      StarAbsorbs(pat, txt, i + 1, j);
      assert txt[i..][1..] == txt[i + 1..];
    }
  }

  /** A star-free stretch `pat[s..p]` in front of a match consumes as many characters as it has. */
  lemma {:induction false} LiteralConsumes(pat: string, s: nat, p: nat, txt: string)
    requires s <= p <= |pat| && '*' !in pat[s..p] && Matches(pat[s..], txt)
    ensures p - s <= |txt| && Matches(pat[p..], txt[p - s..])
    decreases p - s
  {
    if s < p {
      assert pat[s] == pat[s..p][0];
      assert pat[s..][1..] == pat[s + 1..] && pat[s + 1..p] == pat[s..p][1..];
      LiteralConsumes(pat, s + 1, p, txt[1..]);
      assert txt[1..][p - s - 1..] == txt[p - s..];
    } else {
      assert txt[0..] == txt;
    }
  }

  /** Whether the star at `star` can still succeed by swallowing up to `mark + 1` characters or more. */
  ghost predicate Retry(pat: string, txt: string, star: int, mark: nat)
    requires -1 <= star < |pat| && mark <= |txt|
  {
    star >= 0 && mark < |txt| && Matches(pat[star..], txt[mark + 1..])
  }

  /** Only the latest star matters: when a new star is met at `p`, any success of an older retry is also
      a success of going on. */
  lemma OlderStarRedundant(pat: string, txt: string, star: int, mark: nat, p: nat, t: nat)
    requires 0 <= star < p < |pat| && mark <= t < |txt|
    requires pat[star] == '*' && pat[p] == '*'
    requires '*' !in pat[star + 1..p] && t - mark == p - (star + 1)
    requires Retry(pat, txt, star, mark)
    ensures Matches(pat[p..], txt[t..])
  {
    StarSwallows(pat[star..], txt[mark + 1..]);
    assert pat[star..][1..] == pat[star + 1..];
    var k :| 0 <= k <= |txt[mark + 1..]| && Matches(pat[star + 1..], txt[mark + 1..][k..]);
    assert txt[mark + 1..][k..] == txt[mark + 1 + k..];
    LiteralConsumes(pat, star + 1, p, txt[mark + 1 + k..]);
    assert txt[mark + 1 + k..][t - mark..] == txt[t + 1 + k..];
    StarAbsorbs(pat[p..], txt, t, t + 1 + k);
  }

  /** Once the text is used up, retrying the star cannot help: what follows it is too long. */
  lemma NoRetryAtEnd(pat: string, txt: string, star: int, mark: nat, p: nat)
    requires 0 <= star < p <= |pat| && mark <= |txt|
    requires pat[star] == '*' && '*' !in pat[star + 1..p] && |txt| - mark == p - (star + 1)
    ensures !Retry(pat, txt, star, mark)
  {
    if Retry(pat, txt, star, mark) {
      StarSwallows(pat[star..], txt[mark + 1..]);
      assert pat[star..][1..] == pat[star + 1..];
      var k :| 0 <= k <= |txt[mark + 1..]| && Matches(pat[star + 1..], txt[mark + 1..][k..]);
      LiteralConsumes(pat, star + 1, p, txt[mark + 1..][k..]);
    }
  }

  /** What going on from `(p, t)`, or else retrying the latest star, can still achieve. */
  ghost predicate CanMatch(pat: string, txt: string, star: int, mark: nat, p: nat, t: nat)
    requires -1 <= star < |pat| && mark <= |txt| && p <= |pat| && t <= |txt|
  {
    Matches(pat[p..], txt[t..]) || Retry(pat, txt, star, mark)
  }

  lemma MeetStar(pat: string, txt: string, star: int, mark: nat, p: nat, t: nat)
    requires -1 <= star < p < |pat| && mark <= t < |txt| && pat[p] == '*'
    requires star >= 0 ==> pat[star] == '*' && '*' !in pat[star + 1..p] && t - mark == p - (star + 1)
    ensures CanMatch(pat, txt, star, mark, p, t) <==> CanMatch(pat, txt, p, t, p + 1, t)
  {
    if Retry(pat, txt, star, mark) {
      OlderStarRedundant(pat, txt, star, mark, p, t);
    }
    assert pat[p..][1..] == pat[p + 1..] && txt[t..][1..] == txt[t + 1..];
  }

  lemma RetryStar(pat: string, txt: string, star: int, mark: nat, p: nat, t: nat)
    requires 0 <= star < p <= |pat| && mark <= t < |txt|
    requires pat[star] == '*' && (p == |pat| || (pat[p] != '*' && pat[p] != txt[t]))
    ensures CanMatch(pat, txt, star, mark, p, t) <==> CanMatch(pat, txt, star, mark + 1, star + 1, mark + 1)
  {
    assert !Matches(pat[p..], txt[t..]);
    assert pat[star..][1..] == pat[star + 1..];
    assert txt[mark + 1..] == [] || txt[mark + 1..][1..] == txt[mark + 2..];
  }

  method GlobMatch(pat: string, txt: string) returns (r: bool)
    ensures r <==> Matches(pat, txt)
  {
    var p, t := 0, 0;
    var star, mark := -1, 0;
    assert pat[0..] == pat && txt[0..] == txt;
    while t < |txt|
      invariant -1 <= star < |pat| && star < p <= |pat| && mark <= t <= |txt|
      invariant star >= 0 ==> pat[star] == '*' && '*' !in pat[star + 1..p] && t - mark == p - (star + 1)
      invariant Matches(pat, txt) <==> CanMatch(pat, txt, star, mark, p, t)
      decreases |pat| - star, |txt| - mark, |pat| - p
    {
      if p < |pat| && pat[p] == '*' {
        MeetStar(pat, txt, star, mark, p, t);
        star, mark := p, t;
        p := p + 1;
      } else if p < |pat| && pat[p] == txt[t] {
        assert pat[p..][1..] == pat[p + 1..] && txt[t..][1..] == txt[t + 1..];
        p := p + 1;
        t := t + 1;
      } else if star >= 0 {
        RetryStar(pat, txt, star, mark, p, t);
        p := star + 1;
        mark := mark + 1;
        t := mark;
      } else {
        return false;
      }
    }
    if star >= 0 {
      NoRetryAtEnd(pat, txt, star, mark, p);
    }
    assert txt[t..] == [];
    while p < |pat| && pat[p] == '*'
      invariant p <= |pat|
      invariant Matches(pat, txt) <==> Matches(pat[p..], [])
    {
      assert pat[p..][1..] == pat[p + 1..];
      p := p + 1;
    }
    r := p == |pat|;
  }

  /** A component matches a pattern when it does so after both are lower-cased. */
  predicate SegmentMatches(pattern: string, name: string) {
    Matches(Lower(pattern), Lower(name))
  }

  method MatchSegment(pattern: string, name: string) returns (r: bool)
    ensures r <==> SegmentMatches(pattern, name)
  {
    r := GlobMatch(Lower(pattern), Lower(name));
  }

  /** A pattern without wildcards matches exactly the names equal to it up to ASCII case. */
  lemma LiteralPattern(pattern: string, name: string)
    requires '*' !in pattern
    ensures SegmentMatches(pattern, name) <==> SameName(pattern, name)
  {
    var p := Lower(pattern);
    forall i | 0 <= i < |p| ensures p[i] != '*' {
      assert pattern[i] in pattern;
    }
    LiteralMatchesItself(p, Lower(name));
  }

  lemma {:induction false} LiteralMatchesItself(p: string, t: string)
    requires '*' !in p
    ensures Matches(p, t) <==> p == t
  {
    if p != [] && t != [] {
      LiteralMatchesItself(p[1..], t[1..]);
      assert p == [p[0]] + p[1..] && t == [t[0]] + t[1..];
    }
  }

  // ----- what a pattern matches: its stars filled in -----

  ghost function Stars(pat: string): nat {
    if pat == [] then 0 else (if pat[0] == '*' then 1 else 0) + Stars(pat[1..])
  }

  /** The pattern with its stars replaced, one after the other, by these runs. */
  ghost function Fill(pat: string, runs: seq<string>): string
    requires |runs| == Stars(pat)
  {
    if pat == [] then []
    else if pat[0] == '*' then runs[0] + Fill(pat[1..], runs[1..])
    else [pat[0]] + Fill(pat[1..], runs)
  }

  lemma {:induction false} MatchFills(pat: string, txt: string) returns (runs: seq<string>)
    requires Matches(pat, txt)
    ensures |runs| == Stars(pat) && Fill(pat, runs) == txt
  {
    runs := [];
    if pat != [] {
      if pat[0] == '*' {
        StarSwallows(pat, txt);
        var k :| 0 <= k <= |txt| && Matches(pat[1..], txt[k..]);
        var rest := MatchFills(pat[1..], txt[k..]);
        runs := [txt[..k]] + rest;
        assert runs[1..] == rest;
      } else {
        runs := MatchFills(pat[1..], txt[1..]);
      }
    }
  }

  lemma {:induction false} FillMatches(pat: string, runs: seq<string>)
    requires |runs| == Stars(pat)
    ensures Matches(pat, Fill(pat, runs))
  {
    if pat != [] {
      var txt := Fill(pat, runs);
      if pat[0] == '*' {
        FillMatches(pat[1..], runs[1..]);
        assert txt[|runs[0]|..] == Fill(pat[1..], runs[1..]);
        StarSwallows(pat, txt);
      } else {
        FillMatches(pat[1..], runs);
        assert txt[1..] == Fill(pat[1..], runs);
      }
    }
  }

  function LowerAll(runs: seq<string>): (r: seq<string>)
    ensures |r| == |runs|
  {
    seq(|runs|, i requires 0 <= i < |runs| => Lower(runs[i]))
  }

  lemma LowerAppend(a: string, b: string)
    ensures Lower(a + b) == Lower(a) + Lower(b)
  {
  }

  lemma LowerTwice(s: string)
    ensures Lower(Lower(s)) == Lower(s)
  {
  }

  lemma {:induction false} LowerFill(pat: string, runs: seq<string>)
    requires |runs| == Stars(pat)
    ensures Stars(Lower(pat)) == Stars(pat) && Lower(Fill(pat, runs)) == Fill(Lower(pat), LowerAll(runs))
  {
    if pat != [] {
      assert Lower(pat)[1..] == Lower(pat[1..]);
      if pat[0] == '*' {
        LowerFill(pat[1..], runs[1..]);
        assert LowerAll(runs)[1..] == LowerAll(runs[1..]);
        LowerAppend(runs[0], Fill(pat[1..], runs[1..]));
      } else {
        LowerFill(pat[1..], runs);
        LowerAppend([pat[0]], Fill(pat[1..], runs));
      }
    }
  }

  lemma {:induction false} LowerStars(pat: string)
    ensures Stars(Lower(pat)) == Stars(pat)
  {
    if pat != [] {
      assert Lower(pat)[1..] == Lower(pat[1..]);
      LowerStars(pat[1..]);
    }
  }

  /** A name matches exactly when it is, up to ASCII case, the pattern with each star replaced by some run of
      characters. */
  lemma SegmentExact(pattern: string, name: string)
    ensures SegmentMatches(pattern, name) <==>
              exists runs :: |runs| == Stars(pattern) && EqualFold(Fill(pattern, runs), name)
  {
    if SegmentMatches(pattern, name) {
      var runs := MatchFills(Lower(pattern), Lower(name));
      LowerStars(pattern);
      LowerFill(Lower(pattern), runs);
      LowerFill(pattern, runs);
      LowerTwice(pattern);
      LowerTwice(name);
      FoldedEqual(Fill(pattern, runs), name);
    }
    if runs :| |runs| == Stars(pattern) && EqualFold(Fill(pattern, runs), name) {
      FoldedEqual(Fill(pattern, runs), name);
      LowerFill(pattern, runs);
      FillMatches(Lower(pattern), LowerAll(runs));
    }
  }
}
