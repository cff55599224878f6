/** The file selector: `should_include_file`, the default ignore patterns and how `main`
    composes the effective ignore list. */
module Selector {
  import opened Optional
  import opened Paths
  import opened Glob

  /** Every pattern begins with two stars and a slash. */
  predicate Anchored(patterns: seq<string>)
  {
    forall i :: 0 <= i < |patterns| ==>
      |patterns[i]| >= 3 && patterns[i][0] == patterns[i][1] == '*' && patterns[i][2] == '/'
  }

  /** Every pattern ends with a slash and two stars: a directory's whole subtree. */
  predicate WholeSubtrees(patterns: seq<string>)
  {
    forall i :: 0 <= i < |patterns| ==> EndsWith(patterns[i], "/**")
  }

  /** Every pattern ends with a slash and one star: whatever a directory holds. */
  predicate DirectoryContents(patterns: seq<string>)
  {
    forall i :: 0 <= i < |patterns| ==> EndsWith(patterns[i], "/*")
  }

  /** Every pattern begins with two stars, a slash, a star and a dot: a file extension
      anywhere in the tree. */
  predicate ByExtension(patterns: seq<string>)
  {
    forall i :: 0 <= i < |patterns| ==> StartsWith(patterns[i], "**/*.")
  }

  /** Two stars, a slash, `name`, a slash and two stars: everything below a directory called
      `name`, at any depth. */
  function Subtree(name: string): (p: string)
    ensures Anchored([p]) && WholeSubtrees([p])
  {
    var p := "**/" + name + "/**";
    assert p[|p| - 3..] == "/**";
    p
  }

  /** Two stars, a slash, `name`, a slash and a star: what a directory called `name` holds, at
      any depth. */
  function ContentsOf(name: string): (p: string)
    ensures Anchored([p]) && DirectoryContents([p])
  {
    var p := "**/" + name + "/*";
    assert p[|p| - 2..] == "/*";
    p
  }

  /** Two stars, a slash, a star, a dot and `ext`: files with extension `ext`, at any depth. */
  function WithExtension(ext: string): (p: string)
    ensures Anchored([p]) && ByExtension([p])
  {
    var p := "**/*." + ext;
    assert p[..5] == "**/*.";
    p
  }

  /** The defaults for virtual-environment directories. */
  function VenvPatterns(): (r: seq<string>)
    ensures |r| == 9 && Anchored(r) && WholeSubtrees(r)
  {
    [Subtree("venv"), Subtree("*venv"), Subtree("env"), Subtree("*.env"), Subtree("virtualenv"),
     Subtree(".virtualenvs"), Subtree(".venv"), Subtree("ENV"), Subtree("python?env")]
  }

  /** The defaults for hidden files and directories, and `~` backups. */
  function HiddenPatterns(): (r: seq<string>)
    ensures |r| == 3 && Anchored(r)
  {
    ["**/.*", "**/*~", "**/*.~*~"]
  }

  /** The defaults for build and cache directories. */
  function BuildPatterns(): (r: seq<string>)
    ensures |r| == 7 && Anchored(r) && DirectoryContents(r)
  {
    [ContentsOf("__pycache__"), ContentsOf("node_modules"), ContentsOf("build"), ContentsOf("dist"),
     ContentsOf("target"), ContentsOf("bin"), ContentsOf("obj")]
  }

  /** The defaults for compiled and binary files. */
  function CompiledPatterns(): (r: seq<string>)
    ensures |r| == 7 && Anchored(r) && ByExtension(r)
  {
    [WithExtension("pyc"), WithExtension("class"), WithExtension("o"), WithExtension("exe"),
     WithExtension("dll"), WithExtension("so"), WithExtension("dylib")]
  }

  /** The defaults for package files. */
  function PackagePatterns(): (r: seq<string>)
    ensures |r| == 3 && Anchored(r) && ByExtension(r)
  {
    [WithExtension("jar"), WithExtension("war"), WithExtension("ear")]
  }

  /** The defaults for compressed files. */
  function CompressedPatterns(): (r: seq<string>)
    ensures |r| == 4 && Anchored(r) && ByExtension(r)
  {
    [WithExtension("zip"), WithExtension("tar"), WithExtension("gz"), WithExtension("rar")]
  }

  /** The defaults for editor backup files. */
  function EditorPatterns(): (r: seq<string>)
    ensures |r| == 6 && Anchored(r)
  {
    ["**/*~", "**/*.swp", "**/*.swo", "**/*.swn", "**/*.bak", "**/*#"]
  }

  /** The defaults for the script itself and its project folder. */
  function SelfPatterns(): (r: seq<string>)
    ensures |r| == 2 && Anchored(r)
  {
    ["**/concat_proj.py", "**/concat-proj/**"]
  }

  /** `get_default_ignore_patterns()`: a fresh constant list on every call, its groups in the
      source's order. */
  function DefaultIgnorePatterns(): (r: seq<string>)
    ensures |r| == 41
    ensures Anchored(r)
  {
    VenvPatterns() + HiddenPatterns() + BuildPatterns() + CompiledPatterns()
      + PackagePatterns() + CompressedPatterns() + EditorPatterns() + SelfPatterns()
  }

  /** The ignore list `main` passes on: the defaults, then the user's `--ignore` patterns
      (`extend` in place; a missing or empty option leaves the defaults alone). */
  method BuildIgnorePatterns(userIgnore: Option<seq<string>>) returns (patterns: seq<string>)
    ensures |patterns| >= |DefaultIgnorePatterns()|
    ensures patterns[..|DefaultIgnorePatterns()|] == DefaultIgnorePatterns()
    ensures patterns[|DefaultIgnorePatterns()|..] == if userIgnore.Some? then userIgnore.value else []
  {
    patterns := DefaultIgnorePatterns();
    if userIgnore.Some? && userIgnore.value != [] {
      patterns := patterns + userIgnore.value;
    }
  }

  /** Some pattern of `patterns` matches `path` (the two pattern-search loops). */
  function MatchesAny(path: string, patterns: seq<string>): (r: bool)
    ensures r <==> exists i :: 0 <= i < |patterns| && Match(patterns[i], path)
    decreases |patterns|
  {
    if patterns == [] then false
    else Match(patterns[0], path) || MatchesAny(path, patterns[1..])
  }

  /** A list of patterns matches when one of its two parts does. */
  lemma MatchesAnyAppend(path: string, a: seq<string>, b: seq<string>)
    ensures MatchesAny(path, a + b) <==> MatchesAny(path, a) || MatchesAny(path, b)
  {
    if MatchesAny(path, a + b) {
      var i :| 0 <= i < |a + b| && Match((a + b)[i], path);
      if i < |a| {
        assert (a + b)[i] == a[i];
      } else {
        assert (a + b)[i] == b[i - |a|];
      }
    }
    if MatchesAny(path, a) {
      var i :| 0 <= i < |a| && Match(a[i], path);
      assert (a + b)[i] == a[i];
    }
    if MatchesAny(path, b) {
      var i :| 0 <= i < |b| && Match(b[i], path);
      assert (a + b)[|a| + i] == b[i];
    }
  }

  /** A segment naming a hidden file or directory. */
  predicate IsHidden(part: string)
  {
    |part| > 0 && part[0] == '.'
  }

  /** `'venv' in part.lower()`. */
  predicate ContainsVenv(part: string)
  {
    Occurs("venv", Lower(part))
  }

  predicate HasHiddenSegment(path: string)
  {
    exists part :: part in Segments(path) && IsHidden(part)
  }

  predicate HasVenvSegment(path: string)
  {
    exists part :: part in Segments(path) && ContainsVenv(part)
  }

  /** `should_include_file(path, includes, ignores)`: the first rule that applies decides. */
  function ShouldInclude(path: string, includes: seq<string>, ignores: seq<string>): (r: bool)
    ensures r ==> !MatchesAny(path, ignores)
    ensures r && includes != [] ==> MatchesAny(path, includes)
  {
    if HasHiddenSegment(path) then false
    else if HasVenvSegment(path) then false
    else if EndsWith(path, "~") then false
    else if MatchesAny(path, ignores) then false
    else if includes == [] then true
    else MatchesAny(path, includes)
  }

  // ---------------------------------------------------------------------------------------
  // The segment tests read on the whole path

  /** The first segment is hidden exactly when the path starts with a dot. */
  lemma FirstSegmentHidden(p: string)
    ensures IsHidden(Segments(p)[0]) <==> StartsWith(p, ".")
  {
    FirstSegmentSplit(p);
    if p != [] && p[0] == '.' {
      assert Segments(p)[0] != [];
    }
  }

  /** A segment after the first one is hidden exactly when the path contains `/.`. */
  lemma {:induction false} LaterSegmentHidden(p: string)
    ensures (exists part :: part in Segments(p)[1..] && IsHidden(part)) <==> Occurs("/.", p)
    decreases |p|
  {
    if p != [] {
      var rest := Segments(p[1..]);
      LaterSegmentHidden(p[1..]);
      if p[0] == '/' {
        assert Segments(p)[1..] == rest;
        assert rest == [rest[0]] + rest[1..];
        FirstSegmentHidden(p[1..]);
        assert StartsWith(p, "/.") <==> StartsWith(p[1..], ".");
      } else {
        assert Segments(p)[1..] == rest[1..];
        assert !StartsWith(p, "/.");
      }
    }
  }

  /** The hidden-segment rule, read on the whole path. */
  lemma HiddenSegmentIff(p: string)
    ensures HasHiddenSegment(p) <==> StartsWith(p, ".") || Occurs("/.", p)
  {
    var parts := Segments(p);
    assert parts == [parts[0]] + parts[1..];
    FirstSegmentHidden(p);
    LaterSegmentHidden(p);
  }

  /** A run without `/` is a prefix of the path exactly when it is a prefix of its first segment. */
  lemma PrefixWithinFirstSegment(p: string, sub: string)
    requires '/' !in sub
    ensures StartsWith(p, sub) <==> StartsWith(Segments(p)[0], sub)
  {
    var seg := Segments(p)[0];
    FirstSegmentSplit(p);
    if StartsWith(seg, sub) {
      assert p[..|sub|] == seg[..|sub|];
    }
  }

  /** A run without `/` occurs in some segment exactly when it occurs in the path. */
  lemma {:induction false} SegmentOccursIff(sub: string, p: string)
    requires '/' !in sub
    ensures (exists part :: part in Segments(p) && Occurs(sub, part)) <==> Occurs(sub, p)
    decreases |p|
  {
    if p != [] {
      var rest := Segments(p[1..]);
      SegmentOccursIff(sub, p[1..]);
      PrefixWithinFirstSegment(p, sub);
      assert rest == [rest[0]] + rest[1..];
      if p[0] == '/' {
        assert Segments(p) == [[]] + rest;
        assert StartsWith(p, sub) ==> sub == [];
        assert Occurs(sub, []) ==> sub == [];
        if sub == [] {
          assert StartsWith(p[1..], sub);
        }
      } else {
        var seg := [p[0]] + rest[0];
        assert Segments(p) == [seg] + rest[1..];
        assert seg[1..] == rest[0];
        if exists part :: part in Segments(p) && Occurs(sub, part) {
          var part :| part in Segments(p) && Occurs(sub, part);
          if part == seg && !StartsWith(seg, sub) {
            assert Occurs(sub, rest[0]) && rest[0] in rest;
          } else if part != seg {
            assert part in rest;
          }
        }
        if Occurs(sub, p) {
          if StartsWith(p, sub) {
            assert Occurs(sub, seg) && seg in Segments(p);
          } else {
            var part :| part in rest && Occurs(sub, part);
            if part == rest[0] {
              assert Occurs(sub, seg) && seg in Segments(p);
            } else {
              assert part in rest[1..];
              assert part in Segments(p);
            }
          }
        }
      }
    }
  }

  /** The venv rule, read on the whole lower-cased path. */
  lemma VenvSegmentIff(p: string)
    ensures HasVenvSegment(p) <==> Occurs("venv", Lower(p))
  {
    SegmentsOfLower(p);
    SegmentOccursIff("venv", Lower(p));
    var parts, lowered := Segments(p), Segments(Lower(p));
    if HasVenvSegment(p) {
      var part :| part in parts && ContainsVenv(part);
      var i :| 0 <= i < |parts| && parts[i] == part;
      assert lowered[i] in lowered;
    }
    if exists part :: part in lowered && Occurs("venv", part) {
      var part :| part in lowered && Occurs("venv", part);
      var i :| 0 <= i < |lowered| && lowered[i] == part;
      assert parts[i] in parts && ContainsVenv(parts[i]);
    }
  }

  /** A run whose first character is absent from `s` does not occur in it. */
  lemma AbsentCharNoOccurrence(sub: string, s: string)
    requires sub != [] && sub[0] !in s
    ensures !Occurs(sub, s)
  {
    OccursIff(sub, s);
  }

  /** Without a `v` or `V`, no letter case of `venv` occurs. */
  lemma NoVenvWithoutV(s: string)
    requires 'v' !in s && 'V' !in s
    ensures !Occurs("venv", Lower(s))
  {
    forall i | 0 <= i < |s| ensures Lower(s)[i] != 'v' {
      assert s[i] != 'V';
    }
    AbsentCharNoOccurrence("venv", Lower(s));
  }

  // ---------------------------------------------------------------------------------------
  // The precedence of the rules

  /** The whole decision read on the path itself: no leading dot and no `/.`, no `venv` in any
      letter case, no trailing `~`, no ignore pattern matching, and (when include patterns are
      given) some include pattern matching. */
  lemma ShouldIncludeIff(path: string, includes: seq<string>, ignores: seq<string>)
    ensures ShouldInclude(path, includes, ignores) <==>
      && !StartsWith(path, ".") && !Occurs("/.", path)
      && !Occurs("venv", Lower(path))
      && !EndsWith(path, "~")
      && (forall i :: 0 <= i < |ignores| ==> !Match(ignores[i], path))
      && (includes == [] || exists i :: 0 <= i < |includes| && Match(includes[i], path))
  {
    HiddenSegmentIff(path);
    VenvSegmentIff(path);
  }

  /** A hidden file or directory anywhere on the path, `venv` in any letter case, or a trailing
      `~` rejects the path whatever the include and ignore lists hold. */
  lemma StructuralRulesReject(path: string, includes: seq<string>, ignores: seq<string>)
    requires StartsWith(path, ".") || Occurs("/.", path) || Occurs("venv", Lower(path)) || EndsWith(path, "~")
    ensures !ShouldInclude(path, includes, ignores)
  {
    ShouldIncludeIff(path, includes, ignores);
  }

  /** A matching ignore pattern rejects the path whatever the include list holds. */
  lemma IgnoreWins(path: string, includes: seq<string>, ignores: seq<string>, i: nat)
    requires i < |ignores| && Match(ignores[i], path)
    ensures !ShouldInclude(path, includes, ignores)
  {
  }

  /** An empty include list accepts every path the other rules let through. */
  lemma EmptyIncludeAcceptsSurvivors(path: string, ignores: seq<string>)
    requires !HasHiddenSegment(path) && !HasVenvSegment(path) && !EndsWith(path, "~")
    requires !MatchesAny(path, ignores)
    ensures ShouldInclude(path, [], ignores)
  {
  }

  /** Adding ignore patterns never turns a rejection into an acceptance. */
  lemma MoreIgnoresNeverAdmit(path: string, includes: seq<string>, ignores: seq<string>, more: seq<string>)
    requires forall q :: q in ignores ==> q in more
    requires ShouldInclude(path, includes, more)
    ensures ShouldInclude(path, includes, ignores)
  {
    forall i | 0 <= i < |ignores| ensures !Match(ignores[i], path) {
      assert ignores[i] in more;
    }
  }

  /** Adding include patterns to a non-empty include list never turns an acceptance into a
      rejection. */
  lemma MoreIncludesNeverReject(path: string, includes: seq<string>, more: seq<string>, ignores: seq<string>)
    requires includes != []
    requires forall q :: q in includes ==> q in more
    requires ShouldInclude(path, includes, ignores)
    ensures ShouldInclude(path, more, ignores)
  {
    var i :| 0 <= i < |includes| && Match(includes[i], path);
    assert includes[i] in more;
    var j :| 0 <= j < |more| && more[j] == includes[i];
    assert MatchesAny(path, more);
  }

  /** ... but the first include pattern can: an empty list accepts `a.txt`, `["**.py"]` does not. */
  lemma FirstIncludeCanReject(path: string)
    requires path == "a.txt"
    ensures ShouldInclude(path, [], [])
    ensures !ShouldInclude(path, ["**.py"], [])
  {
    AbsentCharNoOccurrence("/.", path);
    NoVenvWithoutV(path);
    assert !StartsWith(path, ".") && !EndsWith(path, "~");
    ShouldIncludeIff(path, [], []);
    LeadingStarsMatchSuffix(".py", path);
    assert "**" + ".py" == "**.py";
    assert !EndsWith(path, ".py") by {
      assert path[|path| - 3..] == ".txt"[1..];
    }
    ShouldIncludeIff(path, ["**.py"], []);
  }

  /** The user's `--ignore` patterns can only narrow what the defaults let through. */
  lemma UserIgnoresOnlyNarrow(path: string, includes: seq<string>, user: seq<string>)
    requires ShouldInclude(path, includes, DefaultIgnorePatterns() + user)
    ensures ShouldInclude(path, includes, DefaultIgnorePatterns())
  {
    MoreIgnoresNeverAdmit(path, includes, DefaultIgnorePatterns(), DefaultIgnorePatterns() + user);
  }

  /** Every default pattern begins with two stars and a slash, so none of them matches a file at the top of the
      tree: a root-level `concat_proj.py` or `x.pyc` passes the default ignore list. */
  lemma DefaultsMissTopLevelFiles(name: string)
    requires '/' !in name
    ensures !MatchesAny(name, DefaultIgnorePatterns())
  {
    var defaults := DefaultIgnorePatterns();
    forall i | 0 <= i < |defaults| ensures !Match(defaults[i], name) {
      assert defaults[i][2] == '/';
      if Match(defaults[i], name) {
        LiteralCharOccurs(defaults[i], 2, name);
      }
    }
  }
}
