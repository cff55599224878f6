/** The "Directory Structure" block: one `├── dir/` header per directory segment that differs
    from the memo of open directories, and one `├── file` line per path, indented four spaces
    per level. */
module Structure {
  import opened Paths

  /** One line of the block, before it is turned into text. */
  datatype Line = DirHeader(depth: nat, name: string) | FileLine(depth: nat, name: string)

  /** The branch marker `├── `. */
  const Branch: string := "\U{251C}\U{2500}\U{2500} "

  /** `"    " * depth`. */
  function Indent(depth: nat): (s: string)
    ensures |s| == 4 * depth
    ensures forall i :: 0 <= i < |s| ==> s[i] == ' '
  {
    if depth == 0 then "" else "    " + Indent(depth - 1)
  }

  /** One line of text: the indentation, the branch marker, the name (with `/` for a
      directory) and the line break. */
  function LineText(line: Line): (t: string)
    ensures StartsWith(t, Indent(line.depth) + Branch)
    ensures t != [] && t[|t| - 1] == '\n'
    ensures t[|Indent(line.depth) + Branch|..|t| - 1] == line.name + (if line.DirHeader? then "/" else "")
  {
    Indent(line.depth) + Branch + line.name + (if line.DirHeader? then "/" else "") + "\n"
  }

  /** The lines written one after another. */
  function Text(lines: seq<Line>): string
    decreases |lines|
  {
    if lines == [] then "" else Text(lines[..|lines| - 1]) + LineText(lines[|lines| - 1])
  }

  /** Every line writes something, so the text is empty exactly when there are no lines, and
      otherwise it ends with the last line's text. */
  lemma TextEnds(lines: seq<Line>)
    ensures Text(lines) == [] <==> lines == []
    ensures lines != [] ==> EndsWith(Text(lines), LineText(lines[|lines| - 1]))
  {
    if lines != [] {
      var t := Text(lines);
      var last := LineText(lines[|lines| - 1]);
      assert t[|t| - |last|..] == last;
    }
  }

  lemma {:induction false} TextAppend(a: seq<Line>, b: seq<Line>)
    ensures Text(a + b) == Text(a) + Text(b)
    decreases |b|
  {
    if b == [] {
      assert a + b == a;
    } else {
      var b' := b[..|b| - 1];
      var last := LineText(b[|b| - 1]);
      assert (a + b)[..|a + b| - 1] == a + b';
      assert (a + b)[|a + b| - 1] == b[|b| - 1];
      calc {
        Text(a + b);
        Text(a + b') + last;
        { TextAppend(a, b'); }
        Text(a) + Text(b') + last;
        Text(a) + (Text(b') + last);
        Text(a) + Text(b);
      }
    }
  }

  /** The directory segments of a path (`parts[:-1]`). */
  function Dirs(path: string): seq<string>
  {
    Segments(path)[..|Segments(path)| - 1]
  }

  /** The file name (`parts[-1]`). */
  function FileName(path: string): string
  {
    Segments(path)[|Segments(path)| - 1]
  }

  /** Memo slot `i` is unset or holds another name than the path's segment at that depth. */
  predicate NeedsHeader(memo: seq<string>, dirs: seq<string>, i: nat)
    requires i < |dirs|
  {
    i >= |memo| || memo[i] != dirs[i]
  }

  /** The headers the inner loop writes for directory segments `dirs`, given the memo as it
      was before the path: by depth, only where the memo asks for one. */
  function Headers(memo: seq<string>, dirs: seq<string>): (r: seq<Line>)
    ensures forall j :: 0 <= j < |r| ==>
      r[j].DirHeader? && r[j].depth < |dirs| && r[j].name == dirs[r[j].depth] && NeedsHeader(memo, dirs, r[j].depth)
    ensures forall j, k :: 0 <= j < k < |r| ==> r[j].depth < r[k].depth
    decreases |dirs|
  {
    if dirs == [] then []
    else
      var i := |dirs| - 1;
      var before := Headers(memo, dirs[..i]);
      assert forall j :: 0 <= j < |before| ==> dirs[..i][before[j].depth] == dirs[before[j].depth];
      before + (if NeedsHeader(memo, dirs, i) then [DirHeader(i, dirs[i])] else [])
  }

  /** The memo after a path with directory segments `dirs`: those segments in the first slots,
      deeper slots as they were; the memo never shrinks. */
  function UpdatedMemo(memo: seq<string>, dirs: seq<string>): (m: seq<string>)
    ensures |m| == if |dirs| < |memo| then |memo| else |dirs|
    ensures forall i :: 0 <= i < |dirs| ==> m[i] == dirs[i]
    ensures forall i :: |dirs| <= i < |memo| ==> m[i] == memo[i]
  {
    if |dirs| < |memo| then dirs + memo[|dirs|..] else dirs
  }

  /** Everything written for one path: its new headers, then its file line. */
  function PathLines(memo: seq<string>, path: string): (r: seq<Line>)
    ensures |r| >= 1 && r[|r| - 1] == FileLine(|Dirs(path)|, FileName(path))
    ensures forall j :: 0 <= j < |r| - 1 ==> r[j].DirHeader? && r[j].depth < |Dirs(path)|
  {
    Headers(memo, Dirs(path)) + [FileLine(|Dirs(path)|, FileName(path))]
  }

  /** The lines written for `paths`, starting from `memo`. */
  function Render(memo: seq<string>, paths: seq<string>): (r: seq<Line>)
    ensures |paths| <= |r|
    decreases |paths|
  {
    if paths == [] then []
    else PathLines(memo, paths[0]) + Render(UpdatedMemo(memo, Dirs(paths[0])), paths[1..])
  }

  lemma TextSnoc(lines: seq<Line>, line: Line)
    ensures Text(lines + [line]) == Text(lines) + LineText(line)
  {
    assert (lines + [line])[..|lines|] == lines;
  }

  /** One step of the inner loop: the memo being updated in place still answers the
      header question as the memo from before the path did, and is updated as `UpdatedMemo` says. */
  lemma HeaderStep(memo: seq<string>, dirs: seq<string>, i: nat, current: seq<string>)
    requires i < |dirs| && current == UpdatedMemo(memo, dirs[..i])
    ensures (i >= |current| || current[i] != dirs[i]) == NeedsHeader(memo, dirs, i)
    ensures Headers(memo, dirs[..i + 1]) ==
      Headers(memo, dirs[..i]) + if NeedsHeader(memo, dirs, i) then [DirHeader(i, dirs[i])] else []
    ensures UpdatedMemo(memo, dirs[..i + 1]) ==
      if i >= |current| then current + [dirs[i]] else current[i := dirs[i]]
  {
    assert dirs[..i + 1][..i] == dirs[..i];
    var next := UpdatedMemo(memo, dirs[..i + 1]);
    var expected := if i >= |current| then current + [dirs[i]] else current[i := dirs[i]];
    assert |next| == |expected|;
    forall j | 0 <= j < |next| ensures next[j] == expected[j] {
      if j < i {
        assert next[j] == dirs[..i + 1][j] == dirs[..i][j];
      }
    }
  }

  /** Rendering from the `k`-th path on: that path's lines, then the rest from the updated memo. */
  lemma RenderStep(memo: seq<string>, paths: seq<string>, k: nat)
    requires k < |paths|
    ensures Render(memo, paths[k..]) ==
      PathLines(memo, paths[k]) + Render(UpdatedMemo(memo, Dirs(paths[k])), paths[k + 1..])
  {
    assert paths[k..][1..] == paths[k + 1..];
  }

  /** One turn of the outer loop: the lines for the `k`-th path come next. */
  lemma PathStep(lines: seq<Line>, memo: seq<string>, paths: seq<string>, k: nat)
    requires k < |paths|
    requires lines + Render(memo, paths[k..]) == Render([], paths)
    ensures (lines + PathLines(memo, paths[k])) + Render(UpdatedMemo(memo, Dirs(paths[k])), paths[k + 1..])
      == Render([], paths)
  {
    var here := PathLines(memo, paths[k]);
    var rest := Render(UpdatedMemo(memo, Dirs(paths[k])), paths[k + 1..]);
    RenderStep(memo, paths, k);
    assert lines + (here + rest) == (lines + here) + rest;
  }

  /** ... and the text they add: the headers, then the file line. */
  lemma PathText(lines: seq<Line>, memo: seq<string>, path: string)
    ensures Text(lines + PathLines(memo, path)) ==
      Text(lines) + Text(Headers(memo, Dirs(path))) + LineText(FileLine(|Dirs(path)|, FileName(path)))
  {
    var headers := Headers(memo, Dirs(path));
    var last := FileLine(|Dirs(path)|, FileName(path));
    assert lines + PathLines(memo, path) == (lines + headers) + [last];
    TextAppend(lines, headers);
    TextSnoc(lines + headers, last);
  }

  /** The inner loop of the structure block: for each directory segment of one path, a header
      where the memo asks for one, updating the memo in place as it goes. */
  method WriteHeaders(memo: seq<string>, dirs: seq<string>) returns (currentDirs: seq<string>, out: string)
    ensures currentDirs == UpdatedMemo(memo, dirs)
    ensures out == Text(Headers(memo, dirs))
  {
    currentDirs := memo;
    out := "";
    ghost var lines: seq<Line> := [];
    var i := 0;
    while i < |dirs|
      invariant 0 <= i <= |dirs|
      invariant currentDirs == UpdatedMemo(memo, dirs[..i])
      invariant lines == Headers(memo, dirs[..i])
      invariant out == Text(lines)
    {
      HeaderStep(memo, dirs, i, currentDirs);
      var part := dirs[i];
      if i >= |currentDirs| {
        currentDirs := currentDirs + [part];
        TextSnoc(lines, DirHeader(i, part));
        out := out + LineText(DirHeader(i, part));
        lines := lines + [DirHeader(i, part)];
      } else if currentDirs[i] != part {
        currentDirs := currentDirs[i := part];
        TextSnoc(lines, DirHeader(i, part));
        out := out + LineText(DirHeader(i, part));
        lines := lines + [DirHeader(i, part)];
      } else {
        assert currentDirs[i := part] == currentDirs;
      }
      i := i + 1;
    }
    assert dirs[..i] == dirs;
  }

  /** One turn of the structure loop: the headers the path needs, then its file line. */
  method WritePath(memo: seq<string>, path: string) returns (currentDirs: seq<string>, out: string)
    ensures currentDirs == UpdatedMemo(memo, Dirs(path))
    ensures out == Text(PathLines(memo, path))
  {
    var parts := Segments(path);
    var headers;
    currentDirs, headers := WriteHeaders(memo, parts[..|parts| - 1]);
    out := headers + LineText(FileLine(|parts| - 1, parts[|parts| - 1]));
    PathText([], memo, path);
    assert [] + PathLines(memo, path) == PathLines(memo, path);
    assert Text([]) == "";
  }

  /** The structure loop of `concatenate_files`: what it writes for the sorted paths. */
  method WriteStructure(paths: seq<string>) returns (out: string)
    ensures out == Text(Render([], paths))
  {
    var currentDirs: seq<string> := [];
    out := "";
    ghost var lines: seq<Line> := [];
    for k := 0 to |paths|
      invariant out == Text(lines)
      invariant lines + Render(currentDirs, paths[k..]) == Render([], paths)
    {
      ghost var memo := currentDirs;
      var text;
      currentDirs, text := WritePath(currentDirs, paths[k]);
      out := out + text;
      PathStep(lines, memo, paths, k);
      TextAppend(lines, PathLines(memo, paths[k]));
      lines := lines + PathLines(memo, paths[k]);
    }
    assert paths[|paths|..] == [];
    assert lines + Render(currentDirs, []) == lines;
  }

  // ---------------------------------------------------------------------------------------
  // What the block shows

  /** The file lines among `lines`, in order. */
  function FileLines(lines: seq<Line>): seq<Line>
    decreases |lines|
  {
    if lines == [] then []
    else (if lines[0].FileLine? then [lines[0]] else []) + FileLines(lines[1..])
  }

  lemma {:induction false} FileLinesAppend(a: seq<Line>, b: seq<Line>)
    ensures FileLines(a + b) == FileLines(a) + FileLines(b)
    decreases |a|
  {
    if a != [] {
      assert (a + b)[1..] == a[1..] + b;
      FileLinesAppend(a[1..], b);
    } else {
      assert a + b == b;
    }
  }

  lemma {:induction false} NoFileLinesAmongHeaders(lines: seq<Line>)
    requires forall j :: 0 <= j < |lines| ==> lines[j].DirHeader?
    ensures FileLines(lines) == []
    decreases |lines|
  {
    if lines != [] {
      NoFileLinesAmongHeaders(lines[1..]);
    }
  }

  /** The block holds exactly one file line per path, in the order of the paths, at the depth
      of the path's directory segments and naming its last segment. */
  lemma {:induction false} OneFileLinePerPath(memo: seq<string>, paths: seq<string>)
    ensures |FileLines(Render(memo, paths))| == |paths|
    ensures forall k :: 0 <= k < |paths| ==>
      FileLines(Render(memo, paths))[k] == FileLine(|Dirs(paths[k])|, FileName(paths[k]))
    decreases |paths|
  {
    if paths != [] {
      var headers := Headers(memo, Dirs(paths[0]));
      var rest := Render(UpdatedMemo(memo, Dirs(paths[0])), paths[1..]);
      OneFileLinePerPath(UpdatedMemo(memo, Dirs(paths[0])), paths[1..]);
      NoFileLinesAmongHeaders(headers);
      FileLinesAppend(headers, [FileLine(|Dirs(paths[0])|, FileName(paths[0]))]);
      FileLinesAppend(PathLines(memo, paths[0]), rest);
      assert FileLines([FileLine(|Dirs(paths[0])|, FileName(paths[0]))]) == [FileLine(|Dirs(paths[0])|, FileName(paths[0]))];
    }
  }

  /** A file line is indented by four spaces per directory segment of its path. */
  lemma FileLineIndent(path: string)
    ensures StartsWith(LineText(FileLine(|Dirs(path)|, FileName(path))), Indent(|Segments(path)| - 1) + Branch)
  {
  }

  /** A header for depth `d` and name `name` is written exactly when `d` is a directory depth
      of the path, `name` its segment there, and memo slot `d` is unset or holds another name. */
  lemma {:induction false} HeaderIff(memo: seq<string>, dirs: seq<string>, d: nat, name: string)
    ensures DirHeader(d, name) in Headers(memo, dirs) <==>
      d < |dirs| && name == dirs[d] && NeedsHeader(memo, dirs, d)
    decreases |dirs|
  {
    if dirs != [] {
      var i := |dirs| - 1;
      HeaderIff(memo, dirs[..i], d, name);
      if d < i {
        assert dirs[..i][d] == dirs[d];
      }
    }
  }

  /** A path in the same directories as the memo records gets no header. */
  lemma SameDirectoriesNoHeaders(memo: seq<string>, dirs: seq<string>)
    requires |dirs| <= |memo| && memo[..|dirs|] == dirs
    ensures Headers(memo, dirs) == []
  {
  }

  /** A file at the top of the tree gets no header: its only line is the file line at depth 0. */
  lemma TopLevelFileHasNoHeader(memo: seq<string>, path: string)
    requires '/' !in path
    ensures PathLines(memo, path) == [FileLine(0, path)]
  {
    SegmentsOfPrefix(path, []);
    assert path + [] == path;
  }

  /** The lines of `a/x/f` drawn first, and the memo they leave. */
  lemma FirstExamplePath(first: string)
    requires first == "a/x/f"
    ensures PathLines([], first) == [DirHeader(0, "a"), DirHeader(1, "x"), FileLine(2, "f")]
    ensures UpdatedMemo([], Dirs(first)) == ["a", "x"]
  {
    var p := ["a", "x", "f"];
    assert Join(p) == first;
    SegmentsJoin(p);
    assert Dirs(first) == ["a", "x"];
    assert ["a", "x"][..1] == ["a"];
    assert Headers([], ["a", "x"]) == [DirHeader(0, "a"), DirHeader(1, "x")];
  }

  /** The lines of `b/x/g` drawn after `a/x/f`, and the memo they leave. */
  lemma SecondExamplePath(second: string)
    requires second == "b/x/g"
    ensures PathLines(["a", "x"], second) == [DirHeader(0, "b"), FileLine(2, "g")]
    ensures UpdatedMemo(["a", "x"], Dirs(second)) == ["b", "x"]
  {
    var q := ["b", "x", "g"];
    assert Join(q) == second;
    SegmentsJoin(q);
    assert Dirs(second) == ["b", "x"];
    assert ["b", "x"][..1] == ["b"];
    assert Headers(["a", "x"], ["b", "x"]) == [DirHeader(0, "b")];
  }

  /** A change at a shallow depth does not clear the deeper memo slots: after `a/x/f`, the path
      `b/x/g` gets a header for `b` but none for `x`. */
  lemma StaleDeeperSlot(first: string, second: string)
    requires first == "a/x/f" && second == "b/x/g"
    ensures Render([], [first, second]) ==
      [DirHeader(0, "a"), DirHeader(1, "x"), FileLine(2, "f"), DirHeader(0, "b"), FileLine(2, "g")]
  {
    FirstExamplePath(first);
    SecondExamplePath(second);
    assert [first, second][1..] == [second];
    assert Render(["a", "x"], [second]) == PathLines(["a", "x"], second) + Render(["b", "x"], []);
  }
}
