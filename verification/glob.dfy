/** Shell-style pattern matching as `fnmatch.fnmatch` does it on POSIX: case-sensitive, anchored
    at both ends, `*` matching any run of characters (`/` included, so `**` is just two stars),
    `?` matching exactly one character, every other character matching itself. */
module Glob {
  import opened Paths

  predicate IsWildcard(c: char)
  {
    c == '*' || c == '?'
  }

  /** A pattern without wildcards. */
  predicate Literal(p: string)
  {
    forall i :: 0 <= i < |p| ==> !IsWildcard(p[i])
  }

  /** `fnmatch.fnmatch(name, pat)`. */
  predicate Match(pat: string, name: string)
    ensures Match(pat, name) && '*' !in pat ==> |name| == |pat|
    decreases |pat| + |name|
  {
    if pat == [] then name == []
    else if pat[0] == '*' then Match(pat[1..], name) || (name != [] && Match(pat, name[1..]))
    else name != [] && (pat[0] == '?' || pat[0] == name[0]) && Match(pat[1..], name[1..])
  }

  /** `?` matches exactly one character, whatever it is (`/` included). */
  lemma QuestionMatchesOne(s: string)
    ensures Match("?", s) <==> |s| == 1
  {
    if s != [] {
      assert "?"[1..] == [];
    }
  }

  /** Matching a concatenated pattern splits the name into two matching parts. */
  lemma {:induction false} MatchConcat(p1: string, p2: string, s: string)
    ensures Match(p1 + p2, s) <==> exists k :: 0 <= k <= |s| && Match(p1, s[..k]) && Match(p2, s[k..])
    decreases |p1| + |s|, 1
  {
    if p1 == [] {
      assert p1 + p2 == p2;
      assert s[..0] == [] && s[0..] == s;
      forall k | 0 <= k <= |s| && Match(p1, s[..k]) ensures k == 0 {
        assert s[..k] == [];
      }
    } else if p1[0] == '*' {
      MatchConcatStar(p1, p2, s);
    } else {
      MatchConcatChar(p1, p2, s);
    }
  }

  /** `MatchConcat` when the first half starts with `*`. */
  lemma {:induction false} MatchConcatStar(p1: string, p2: string, s: string)
    requires p1 != [] && p1[0] == '*'
    ensures Match(p1 + p2, s) <==> exists k :: 0 <= k <= |s| && Match(p1, s[..k]) && Match(p2, s[k..])
    decreases |p1| + |s|, 0
  {
    var q := p1[1..];
    assert (p1 + p2)[0] == p1[0];
    assert (p1 + p2)[1..] == q + p2;
    MatchConcat(q, p2, s);
    if s != [] {
      MatchConcat(p1, p2, s[1..]);
    }
    if Match(p1 + p2, s) {
      if Match(q + p2, s) {
        var k :| 0 <= k <= |s| && Match(q, s[..k]) && Match(p2, s[k..]);
        assert Match(p1, s[..k]);
      } else {
        var k :| 0 <= k <= |s[1..]| && Match(p1, s[1..][..k]) && Match(p2, s[1..][k..]);
        assert s[..k + 1][1..] == s[1..][..k];
        assert s[k + 1..] == s[1..][k..];
        assert Match(p1, s[..k + 1]);
      }
    }
    if exists k :: 0 <= k <= |s| && Match(p1, s[..k]) && Match(p2, s[k..]) {
      var k :| 0 <= k <= |s| && Match(p1, s[..k]) && Match(p2, s[k..]);
      if !Match(q, s[..k]) {
        assert k > 0 && Match(p1, s[..k][1..]);
        assert s[..k][1..] == s[1..][..k - 1];
        assert s[k..] == s[1..][k - 1..];
        assert Match(p1 + p2, s[1..]);
      }
    }
  }

  /** `MatchConcat` when the first half starts with a character other than `*`. */
  lemma {:induction false} MatchConcatChar(p1: string, p2: string, s: string)
    requires p1 != [] && p1[0] != '*'
    ensures Match(p1 + p2, s) <==> exists k :: 0 <= k <= |s| && Match(p1, s[..k]) && Match(p2, s[k..])
    decreases |p1| + |s|, 0
  {
    var q := p1[1..];
    assert (p1 + p2)[0] == p1[0];
    assert (p1 + p2)[1..] == q + p2;
    if s != [] {
      MatchConcat(q, p2, s[1..]);
    }
    if Match(p1 + p2, s) {
      var k :| 0 <= k <= |s[1..]| && Match(q, s[1..][..k]) && Match(p2, s[1..][k..]);
      assert s[..k + 1][1..] == s[1..][..k];
      assert s[k + 1..] == s[1..][k..];
      assert Match(p1, s[..k + 1]);
    }
    if exists k :: 0 <= k <= |s| && Match(p1, s[..k]) && Match(p2, s[k..]) {
      var k :| 0 <= k <= |s| && Match(p1, s[..k]) && Match(p2, s[k..]);
      assert k > 0;
      assert s[..k][1..] == s[1..][..k - 1];
      assert s[k..] == s[1..][k - 1..];
    }
  }

  /** `*` alone matches every name. */
  lemma {:induction false} StarMatchesAll(s: string)
    ensures Match("*", s)
    decreases |s|
  {
    if s != [] {
      StarMatchesAll(s[1..]);
    }
  }

  /** A pattern without wildcards matches exactly itself. */
  lemma {:induction false} LiteralMatch(p: string, s: string)
    requires Literal(p)
    ensures Match(p, s) <==> s == p
    decreases |p|
  {
    if p != [] && s != [] {
      LiteralMatch(p[1..], s[1..]);
      assert s == [s[0]] + s[1..] && p == [p[0]] + p[1..];
    }
  }

  /** `**` followed by a literal suffix (the `"**.py"` idiom) matches exactly the names ending
      with that suffix. */
  lemma LeadingStarsMatchSuffix(suffix: string, s: string)
    requires Literal(suffix)
    ensures Match("**" + suffix, s) <==> EndsWith(s, suffix)
  {
    MatchConcat("**", suffix, s);
    if EndsWith(s, suffix) {
      var k := |s| - |suffix|;
      StarMatchesAll(s[..k]);
      assert Match("**", s[..k]);
      LiteralMatch(suffix, s[k..]);
    }
    if Match("**" + suffix, s) {
      var k :| 0 <= k <= |s| && Match("**", s[..k]) && Match(suffix, s[k..]);
      LiteralMatch(suffix, s[k..]);
    }
  }

  /** A name matched by a literal run followed by more pattern starts with that run. */
  lemma LiteralPrefixMatch(run: string, rest: string, s: string)
    requires Literal(run) && Match(run + rest, s)
    ensures StartsWith(s, run)
  {
    MatchConcat(run, rest, s);
    var k :| 0 <= k <= |s| && Match(run, s[..k]) && Match(rest, s[k..]);
    LiteralMatch(run, s[..k]);
  }

  /** A run that starts some suffix of `s` occurs in `s`. */
  lemma SuffixStartOccurs(run: string, s: string, k: int)
    requires 0 <= k <= |s| && StartsWith(s[k..], run)
    ensures Occurs(run, s)
  {
    assert s[k..k + |run|] == s[k..][..|run|];
    assert OccursAt(run, s, k);
    OccursIff(run, s);
  }

  /** Every wildcard-free run of a pattern occurs, as a contiguous run, in any name it matches. */
  lemma LiteralRunOccurs(p: string, i: int, j: int, s: string)
    requires 0 <= i <= j <= |p|
    requires Literal(p[i..j])
    requires Match(p, s)
    ensures Occurs(p[i..j], s)
  {
    var before, run, after := p[..i], p[i..j], p[j..];
    assert p == before + (run + after);
    MatchConcat(before, run + after, s);
    var k :| 0 <= k <= |s| && Match(before, s[..k]) && Match(run + after, s[k..]);
    LiteralPrefixMatch(run, after, s[k..]);
    SuffixStartOccurs(run, s, k);
  }

  /** A literal character of the pattern appears in every name the pattern matches. */
  lemma LiteralCharOccurs(p: string, i: int, s: string)
    requires 0 <= i < |p| && !IsWildcard(p[i])
    requires Match(p, s)
    ensures p[i] in s
  {
    assert Literal(p[i..i + 1]);
    LiteralRunOccurs(p, i, i + 1, s);
    OccursIff(p[i..i + 1], s);
    var k :| OccursAt(p[i..i + 1], s, k);
    assert s[k] == p[i];
  }

  /** A literal character missing from a name rules the pattern out. */
  lemma AbsentCharNoMatch(p: string, j: int, s: string)
    requires 0 <= j < |p| && !IsWildcard(p[j]) && p[j] !in s
    ensures !Match(p, s)
  {
    if Match(p, s) {
      LiteralCharOccurs(p, j, s);
    }
  }
}
