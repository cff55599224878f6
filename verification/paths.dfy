/** Relative paths as the file selector and the structure renderer see them:
    clean, `/`-separated strings such as `os.walk` plus `relpath` produce. */
module Paths {

  /** The `/`-separated segments of a relative path (`Path(p).parts` for a clean path). */
  function Segments(p: string): (parts: seq<string>)
    ensures |parts| >= 1
    ensures forall i :: 0 <= i < |parts| ==> '/' !in parts[i]
    decreases |p|
  {
    if p == [] then [[]]
    else
      var rest := Segments(p[1..]);
      if p[0] == '/' then [[]] + rest
      else [[p[0]] + rest[0]] + rest[1..]
  }

  /** Glues segments back together with `/`. */
  function Join(parts: seq<string>): string
    requires |parts| >= 1
    decreases |parts|
  {
    if |parts| == 1 then parts[0] else parts[0] + "/" + Join(parts[1..])
  }

  /** Splitting then joining gives back the path. */
  lemma {:induction false} JoinSegments(p: string)
    ensures Join(Segments(p)) == p
    decreases |p|
  {
    if p != [] {
      var rest := Segments(p[1..]);
      JoinSegments(p[1..]);
      if p[0] == '/' {
        assert ([[]] + rest)[1..] == rest;
      } else {
        var parts := [[p[0]] + rest[0]] + rest[1..];
        if |rest| > 1 {
          assert parts[1..] == rest[1..];
        }
        assert p == [p[0]] + p[1..];
      }
    }
  }

  /** A leading run without `/` becomes (the start of) the first segment. */
  lemma {:induction false} SegmentsOfPrefix(a: string, rest: string)
    requires '/' !in a
    ensures Segments(a + rest) == [a + Segments(rest)[0]] + Segments(rest)[1..]
    decreases |a|
  {
    if a == [] {
      assert a + rest == rest;
      assert a + Segments(rest)[0] == Segments(rest)[0];
      assert [Segments(rest)[0]] + Segments(rest)[1..] == Segments(rest);
    } else {
      assert (a + rest)[0] == a[0];
      assert (a + rest)[1..] == a[1..] + rest;
      SegmentsOfPrefix(a[1..], rest);
      assert [a[0]] + (a[1..] + Segments(rest)[0]) == a + Segments(rest)[0];
    }
  }

  /** Joining segments that hold no `/` and splitting again gives back the segments. */
  lemma {:induction false} SegmentsJoin(parts: seq<string>)
    requires |parts| >= 1
    requires forall i :: 0 <= i < |parts| ==> '/' !in parts[i]
    ensures Segments(Join(parts)) == parts
    decreases |parts|
  {
    if |parts| == 1 {
      SegmentsOfPrefix(parts[0], []);
      assert parts[0] + [] == parts[0];
    } else {
      var tail := Join(parts[1..]);
      SegmentsJoin(parts[1..]);
      assert Join(parts) == parts[0] + ("/" + tail);
      SegmentsOfPrefix(parts[0], "/" + tail);
      assert ("/" + tail)[1..] == tail;
      assert Segments("/" + tail) == [[]] + parts[1..];
      assert parts[0] + [] == parts[0];
    }
  }

  /** The first segment followed by what remains: nothing, or a `/` and the rest. */
  lemma {:induction false} FirstSegmentSplit(p: string)
    ensures |Segments(p)[0]| <= |p|
    ensures p[..|Segments(p)[0]|] == Segments(p)[0]
    ensures |Segments(p)[0]| < |p| ==> p[|Segments(p)[0]|] == '/'
    decreases |p|
  {
    if p != [] && p[0] != '/' {
      FirstSegmentSplit(p[1..]);
    }
  }

  predicate StartsWith(s: string, prefix: string)
  {
    |prefix| <= |s| && s[..|prefix|] == prefix
  }

  predicate EndsWith(s: string, suffix: string)
  {
    |suffix| <= |s| && s[|s| - |suffix|..] == suffix
  }

  /** Python's `sub in s`: `sub` occurs in `s` as a contiguous run. */
  predicate Occurs(sub: string, s: string)
    ensures Occurs(sub, s) ==> |sub| <= |s|
    decreases |s|
  {
    StartsWith(s, sub) || (s != [] && Occurs(sub, s[1..]))
  }

  /** `sub` occurs in `s` starting at index `i`. */
  predicate OccursAt(sub: string, s: string, i: int)
  {
    0 <= i && i + |sub| <= |s| && s[i..i + |sub|] == sub
  }

  /** `Occurs` agrees with the index-based reading of substring search. */
  lemma {:induction false} OccursIff(sub: string, s: string)
    ensures Occurs(sub, s) <==> exists i :: OccursAt(sub, s, i)
    decreases |s|
  {
    if StartsWith(s, sub) {
      assert OccursAt(sub, s, 0);
    }
    if s == [] {
      if exists i :: OccursAt(sub, s, i) {
        var i :| OccursAt(sub, s, i);
        assert StartsWith(s, sub);
      }
    } else {
      OccursIff(sub, s[1..]);
      if Occurs(sub, s[1..]) {
        var i :| OccursAt(sub, s[1..], i);
        assert s[i + 1..i + 1 + |sub|] == s[1..][i..i + |sub|];
        assert OccursAt(sub, s, i + 1);
      }
      if exists i :: OccursAt(sub, s, i) {
        var i :| OccursAt(sub, s, i);
        if i > 0 {
          assert s[1..][i - 1..i - 1 + |sub|] == s[i..i + |sub|];
          assert OccursAt(sub, s[1..], i - 1);
        }
      }
    }
  }

  /** ASCII lower-casing of one character. */
  function LowerChar(c: char): (d: char)
    ensures 'A' <= c <= 'Z' ==> d as int == c as int + 32
    ensures !('A' <= c <= 'Z') ==> d == c
  {
    if 'A' <= c <= 'Z' then (c as int + 32) as char else c
  }

  /** `str.lower()`, restricted to ASCII letters. */
  function Lower(s: string): (r: string)
    ensures |r| == |s|
    ensures forall i :: 0 <= i < |s| ==> r[i] == LowerChar(s[i])
  {
    seq(|s|, i requires 0 <= i < |s| => LowerChar(s[i]))
  }

  /** Lower-casing a path keeps its `/` and lower-cases each segment. */
  lemma {:induction false} SegmentsOfLower(p: string)
    ensures |Segments(Lower(p))| == |Segments(p)|
    ensures forall i :: 0 <= i < |Segments(p)| ==> Segments(Lower(p))[i] == Lower(Segments(p)[i])
    decreases |p|
  {
    if p != [] {
      SegmentsOfLower(p[1..]);
      assert Lower(p)[1..] == Lower(p[1..]);
      var rest := Segments(p[1..]);
      if p[0] != '/' {
        assert Lower([p[0]] + rest[0]) == [LowerChar(p[0])] + Lower(rest[0]);
      }
    }
  }
}
