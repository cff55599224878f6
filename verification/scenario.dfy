/** A worked run carried through the model: the walk `a/b.py`,
    `a/.hidden`, `venv/x.py`, `a/c.txt` with `--include "**.py"` and the default ignore list
    keeps `a/b.py` alone, and its tree shows the directory `a` above the file `b.py`. */
module Scenario {
  import opened Paths
  import opened Glob
  import opened Order
  import opened Selector
  import opened Structure
  import opened Concatenate

  /** `a/b.py` has no segment starting with a dot. */
  lemma NoSlashDotIn(path: string)
    requires path == "a/b.py"
    ensures !Occurs("/.", path) && !Match("**/.*", path)
  {
    forall k ensures !OccursAt("/.", path, k) {
      if 0 <= k && k + 2 <= |path| {
        assert path[k..k + 2][0] == path[k] && path[k..k + 2][1] == path[k + 1];
      }
    }
    OccursIff("/.", path);
    assert "**/.*"[2..4] == "/.";
    if Match("**/.*", path) {
      LiteralRunOccurs("**/.*", 2, 4, path);
    }
  }

  /** No pattern of the venv group matches `a/b.py`. */
  lemma VenvDefaultsMissScenarioFile(path: string)
    requires path == "a/b.py"
    ensures !MatchesAny(path, VenvPatterns())
  {
    var g := VenvPatterns();
    forall i | 0 <= i < |g| ensures !Match(g[i], path) {
      if i == 0 {
        AbsentCharNoMatch(g[0], 3, path);
      } else if i == 1 {
        AbsentCharNoMatch(g[1], 4, path);
      } else if i == 2 {
        AbsentCharNoMatch(g[2], 3, path);
      } else if i == 3 {
        AbsentCharNoMatch(g[3], 5, path);
      } else if i == 4 {
        AbsentCharNoMatch(g[4], 3, path);
      } else if i == 5 {
        AbsentCharNoMatch(g[5], 4, path);
      } else if i == 6 {
        AbsentCharNoMatch(g[6], 4, path);
      } else if i == 7 {
        AbsentCharNoMatch(g[7], 3, path);
      } else {
        AbsentCharNoMatch(g[8], 5, path);
      }
    }
    assert !MatchesAny(path, g);
  }

  /** No pattern of the hidden group matches `a/b.py`. */
  lemma HiddenDefaultsMissScenarioFile(path: string)
    requires path == "a/b.py"
    ensures !MatchesAny(path, HiddenPatterns())
  {
    var g := HiddenPatterns();
    forall i | 0 <= i < |g| ensures !Match(g[i], path) {
      if i == 0 {
        NoSlashDotIn(path);
      } else if i == 1 {
        AbsentCharNoMatch(g[1], 4, path);
      } else {
        AbsentCharNoMatch(g[2], 5, path);
      }
    }
    assert !MatchesAny(path, g);
  }

  /** No pattern of the build group matches `a/b.py`. */
  lemma BuildDefaultsMissScenarioFile(path: string)
    requires path == "a/b.py"
    ensures !MatchesAny(path, BuildPatterns())
  {
    var g := BuildPatterns();
    forall i | 0 <= i < |g| ensures !Match(g[i], path) {
      if i == 0 {
        AbsentCharNoMatch(g[0], 3, path);
      } else if i == 1 {
        AbsentCharNoMatch(g[1], 3, path);
      } else if i == 2 {
        AbsentCharNoMatch(g[2], 4, path);
      } else if i == 3 {
        AbsentCharNoMatch(g[3], 3, path);
      } else if i == 4 {
        AbsentCharNoMatch(g[4], 3, path);
      } else if i == 5 {
        AbsentCharNoMatch(g[5], 4, path);
      } else {
        AbsentCharNoMatch(g[6], 3, path);
      }
    }
    assert !MatchesAny(path, g);
  }

  /** No pattern of the compiled group matches `a/b.py`. */
  lemma CompiledDefaultsMissScenarioFile(path: string)
    requires path == "a/b.py"
    ensures !MatchesAny(path, CompiledPatterns())
  {
    var g := CompiledPatterns();
    forall i | 0 <= i < |g| ensures !Match(g[i], path) {
      if i == 0 {
        AbsentCharNoMatch(g[0], 7, path);
      } else if i == 1 {
        AbsentCharNoMatch(g[1], 5, path);
      } else if i == 2 {
        AbsentCharNoMatch(g[2], 5, path);
      } else if i == 3 {
        AbsentCharNoMatch(g[3], 5, path);
      } else if i == 4 {
        AbsentCharNoMatch(g[4], 5, path);
      } else if i == 5 {
        AbsentCharNoMatch(g[5], 5, path);
      } else {
        AbsentCharNoMatch(g[6], 5, path);
      }
    }
    assert !MatchesAny(path, g);
  }

  /** No pattern of the package group matches `a/b.py`. */
  lemma PackageDefaultsMissScenarioFile(path: string)
    requires path == "a/b.py"
    ensures !MatchesAny(path, PackagePatterns())
  {
    var g := PackagePatterns();
    forall i | 0 <= i < |g| ensures !Match(g[i], path) {
      if i == 0 {
        AbsentCharNoMatch(g[0], 5, path);
      } else if i == 1 {
        AbsentCharNoMatch(g[1], 5, path);
      } else {
        AbsentCharNoMatch(g[2], 5, path);
      }
    }
    assert !MatchesAny(path, g);
  }

  /** No pattern of the compressed group matches `a/b.py`. */
  lemma CompressedDefaultsMissScenarioFile(path: string)
    requires path == "a/b.py"
    ensures !MatchesAny(path, CompressedPatterns())
  {
    var g := CompressedPatterns();
    forall i | 0 <= i < |g| ensures !Match(g[i], path) {
      if i == 0 {
        AbsentCharNoMatch(g[0], 5, path);
      } else if i == 1 {
        AbsentCharNoMatch(g[1], 5, path);
      } else if i == 2 {
        AbsentCharNoMatch(g[2], 5, path);
      } else {
        AbsentCharNoMatch(g[3], 5, path);
      }
    }
    assert !MatchesAny(path, g);
  }

  /** No pattern of the editor group matches `a/b.py`. */
  lemma EditorDefaultsMissScenarioFile(path: string)
    requires path == "a/b.py"
    ensures !MatchesAny(path, EditorPatterns())
  {
    var g := EditorPatterns();
    forall i | 0 <= i < |g| ensures !Match(g[i], path) {
      if i == 0 {
        AbsentCharNoMatch(g[0], 4, path);
      } else if i == 1 {
        AbsentCharNoMatch(g[1], 5, path);
      } else if i == 2 {
        AbsentCharNoMatch(g[2], 5, path);
      } else if i == 3 {
        AbsentCharNoMatch(g[3], 5, path);
      } else if i == 4 {
        AbsentCharNoMatch(g[4], 7, path);
      } else {
        AbsentCharNoMatch(g[5], 4, path);
      }
    }
    assert !MatchesAny(path, g);
  }

  /** No pattern of the script's own group matches `a/b.py`. */
  lemma SelfDefaultsMissScenarioFile(path: string)
    requires path == "a/b.py"
    ensures !MatchesAny(path, SelfPatterns())
  {
    var g := SelfPatterns();
    forall i | 0 <= i < |g| ensures !Match(g[i], path) {
      if i == 0 {
        AbsentCharNoMatch(g[0], 3, path);
      } else {
        AbsentCharNoMatch(g[1], 3, path);
      }
    }
    assert !MatchesAny(path, g);
  }

  /** None of the 41 default patterns matches `a/b.py`. */
  lemma DefaultsMissScenarioFile(path: string)
    requires path == "a/b.py"
    ensures !MatchesAny(path, DefaultIgnorePatterns())
  {
    VenvDefaultsMissScenarioFile(path);
    HiddenDefaultsMissScenarioFile(path);
    BuildDefaultsMissScenarioFile(path);
    CompiledDefaultsMissScenarioFile(path);
    PackageDefaultsMissScenarioFile(path);
    CompressedDefaultsMissScenarioFile(path);
    EditorDefaultsMissScenarioFile(path);
    SelfDefaultsMissScenarioFile(path);
    var a := VenvPatterns() + HiddenPatterns();
    var b := a + BuildPatterns();
    var c := b + CompiledPatterns();
    var d := c + PackagePatterns();
    var e := d + CompressedPatterns();
    var f := e + EditorPatterns();
    MatchesAnyAppend(path, VenvPatterns(), HiddenPatterns());
    MatchesAnyAppend(path, a, BuildPatterns());
    MatchesAnyAppend(path, b, CompiledPatterns());
    MatchesAnyAppend(path, c, PackagePatterns());
    MatchesAnyAppend(path, d, CompressedPatterns());
    MatchesAnyAppend(path, e, EditorPatterns());
    MatchesAnyAppend(path, f, SelfPatterns());
  }

  /** `a/b.py` has no hidden segment, no segment containing `venv` and no trailing `~`. */
  lemma ScenarioFileNotStructural(path: string)
    requires path == "a/b.py"
    ensures !HasHiddenSegment(path) && !HasVenvSegment(path) && !EndsWith(path, "~")
  {
    NoSlashDotIn(path);
    assert path[..1] != ".";
    HiddenSegmentIff(path);
    NoVenvWithoutV(path);
    VenvSegmentIff(path);
    assert path[|path| - 1..] != "~";
  }

  /** `a/b.py` matches `**.py`. */
  lemma ScenarioFileMatchesInclude(path: string)
    requires path == "a/b.py"
    ensures Match("**.py", path)
  {
    assert "**.py" == "**" + ".py";
    assert path[|path| - 3..] == ".py";
    LeadingStarsMatchSuffix(".py", path);
  }

  /** `a/b.py` passes every rule and matches `**.py`, so it is kept. */
  lemma ScenarioFileKept(path: string, includes: seq<string>)
    requires path == "a/b.py" && includes == ["**.py"]
    ensures ShouldInclude(path, includes, DefaultIgnorePatterns())
  {
    ScenarioFileNotStructural(path);
    DefaultsMissScenarioFile(path);
    ScenarioFileMatchesInclude(path);
    assert Match(includes[0], path);
  }

  /** The hidden file, the file under `venv` and the text file are all left out. */
  lemma ScenarioOthersDropped(hidden: string, venv: string, text: string, includes: seq<string>)
    requires hidden == "a/.hidden" && venv == "venv/x.py" && text == "a/c.txt"
    requires includes == ["**.py"]
    ensures !ShouldInclude(hidden, includes, DefaultIgnorePatterns())
    ensures !ShouldInclude(venv, includes, DefaultIgnorePatterns())
    ensures !ShouldInclude(text, includes, DefaultIgnorePatterns())
  {
    assert OccursAt("/.", hidden, 1);
    OccursIff("/.", hidden);
    StructuralRulesReject(hidden, includes, DefaultIgnorePatterns());
    assert Lower(venv)[..4] == "venv";
    assert OccursAt("venv", Lower(venv), 0);
    OccursIff("venv", Lower(venv));
    StructuralRulesReject(venv, includes, DefaultIgnorePatterns());
    assert "**.py" == "**" + ".py";
    LeadingStarsMatchSuffix(".py", text);
    assert text[|text| - 3..] != ".py";
    ShouldIncludeIff(text, includes, DefaultIgnorePatterns());
  }

  /** A list holding `x` once and nothing else is `[x]`. */
  lemma SingletonOfMultiset(r: seq<string>, x: string)
    requires multiset(r) == multiset{x}
    ensures r == [x]
  {
    assert |r| == |multiset(r)| == 1;
    assert r[0] in multiset(r);
  }

  /** The run keeps `a/b.py` alone. */
  lemma ScenarioSelection(walk: seq<string>, includes: seq<string>)
    requires walk == ["a/b.py", "a/.hidden", "venv/x.py", "a/c.txt"] && includes == ["**.py"]
    ensures Sort(Selected(walk, includes, DefaultIgnorePatterns())) == ["a/b.py"]
  {
    ScenarioFileKept(walk[0], includes);
    ScenarioOthersDropped(walk[1], walk[2], walk[3], includes);
    var r := Selected(walk, includes, DefaultIgnorePatterns());
    forall p ensures multiset(r)[p] == multiset{walk[0]}[p] {
      if p != walk[0] && p in walk {
        assert p == walk[1] || p == walk[2] || p == walk[3];
      }
    }
    assert multiset(r) == multiset{walk[0]};
    SingletonOfMultiset(r, walk[0]);
    SingletonOfMultiset(Sort(r), walk[0]);
  }

  /** Its tree is the header `a` at depth 0 above `b.py` at depth 1, and its contents part is
      that one file's block. */
  lemma ScenarioOutput(path: string, read: string -> Content)
    requires path == "a/b.py"
    ensures Render([], [path]) == [DirHeader(0, "a"), FileLine(1, "b.py")]
    ensures ContentSection([path], read) == Block(path, read(path))
  {
    var q := ["a", "b.py"];
    assert Join(q) == path;
    SegmentsJoin(q);
    assert Dirs(path) == ["a"];
    assert Render([], [path]) == PathLines([], path) + Render(["a"], []);
    assert ContentSection([path], read) == ContentSection([], read) + Block(path, read(path));
  }
}
