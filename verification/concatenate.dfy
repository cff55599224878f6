/** `concatenate_files` and the command line's combining run: the files of a walk are selected,
    sorted by relative path, drawn as a tree and then written out one block per file. */
module Concatenate {
  import opened Optional
  import opened Paths
  import opened Order
  import opened Selector
  import opened Structure

  /** What decoding a file as UTF-8 yields: its characters as stored, before text mode
      translates the line breaks, or the failure to decode. */
  datatype Content = Decoded(text: string) | Undecodable

  /** A horizontal rule of 80 copies of `c`. */
  function Rule(c: char): (r: string)
    ensures |r| == 80
    ensures forall i :: 0 <= i < |r| ==> r[i] == c
  {
    seq(80, _ => c)
  }

  // ---------------------------------------------------------------------------------------
  // Reading in text mode

  /** Text-mode reading turns every `\r\n` and every lone `\r` into `\n`. */
  function UniversalNewlines(s: string): (r: string)
    ensures '\r' !in r
    ensures |r| <= |s|
    decreases |s|
  {
    if s == [] then []
    else if s[0] == '\r' then
      "\n" + UniversalNewlines(if |s| > 1 && s[1] == '\n' then s[2..] else s[1..])
    else [s[0]] + UniversalNewlines(s[1..])
  }

  /** Text without carriage returns is read unchanged. */
  lemma {:induction false} PlainTextReadUnchanged(s: string)
    requires '\r' !in s
    ensures UniversalNewlines(s) == s
    decreases |s|
  {
    if s != [] {
      PlainTextReadUnchanged(s[1..]);
      assert s == [s[0]] + s[1..];
    }
  }

  /** Reading two pieces of text one after the other reads each on its own, unless the first
      ends with `\r` and the second starts with `\n`: those two make a single line break. */
  lemma {:induction false} UniversalNewlinesAppend(a: string, b: string)
    requires a == [] || b == [] || a[|a| - 1] != '\r' || b[0] != '\n'
    ensures UniversalNewlines(a + b) == UniversalNewlines(a) + UniversalNewlines(b)
    decreases |a|
  {
    if a == [] {
      assert a + b == b;
    } else if a[0] == '\r' && |a| > 1 && a[1] == '\n' {
      assert (a + b)[1] == '\n' && (a + b)[2..] == a[2..] + b;
      UniversalNewlinesAppend(a[2..], b);
    } else if a[0] == '\r' && |a| == 1 {
      assert (a + b)[1..] == b;
    } else {
      assert (a + b)[0] == a[0] && (a + b)[1..] == a[1..] + b;
      UniversalNewlinesAppend(a[1..], b);
    }
  }

  /** A `\r\n` pair is read as one `\n`, whatever surrounds it. */
  lemma CrLfReadAsNewline(a: string, b: string)
    ensures UniversalNewlines(a + "\r\n" + b) == UniversalNewlines(a) + "\n" + UniversalNewlines(b)
  {
    UniversalNewlinesAppend(a, "\r\n");
    UniversalNewlinesAppend(a + "\r\n", b);
    assert UniversalNewlines("\r\n") == "\n";
  }

  /** A `\r` not followed by `\n` is read as one `\n`. */
  lemma LoneCrReadAsNewline(a: string, b: string)
    requires b == [] || b[0] != '\n'
    ensures UniversalNewlines(a + "\r" + b) == UniversalNewlines(a) + "\n" + UniversalNewlines(b)
  {
    UniversalNewlinesAppend(a, "\r");
    UniversalNewlinesAppend(a + "\r", b);
    assert UniversalNewlines("\r") == "\n";
  }

  /** Every character other than `\r` and `\n` is read as itself. */
  lemma OtherCharReadUnchanged(a: string, c: char, b: string)
    requires c != '\r' && c != '\n'
    ensures UniversalNewlines(a + [c] + b) == UniversalNewlines(a) + [c] + UniversalNewlines(b)
  {
    UniversalNewlinesAppend(a, [c]);
    UniversalNewlinesAppend(a + [c], b);
    assert UniversalNewlines([c]) == [c];
  }

  /** Reading what was read changes nothing more. */
  lemma ReadingIsIdempotent(s: string)
    ensures UniversalNewlines(UniversalNewlines(s)) == UniversalNewlines(s)
  {
    PlainTextReadUnchanged(UniversalNewlines(s));
  }

  // ---------------------------------------------------------------------------------------
  // One block per file

  function Header(path: string): string
  {
    "\n# File: " + path + "\n" + Rule('=') + "\n"
  }

  function Footer(): string
  {
    "\n" + Rule('-') + "\n"
  }

  function BinaryNotice(path: string): string
  {
    "\n# File: " + path + " (binary file - contents skipped)\n" + Rule('-') + "\n"
  }

  /** The block of one file. The header and the `=` rule are written before the contents are
      read, so a file that fails to decode keeps them and is followed by the binary notice.
      Either way the block opens with the header and closes with the `-` rule. */
  function Block(path: string, content: Content): (r: string)
    ensures StartsWith(r, Header(path))
    ensures EndsWith(r, Footer())
  {
    assert BinaryNotice(path) == "\n# File: " + path + " (binary file - contents skipped)" + Footer();
    match content
    case Decoded(text) => Header(path) + UniversalNewlines(text) + Footer()
    case Undecodable => Header(path) + BinaryNotice(path)
  }

  /** The text of a decoded file sits between its header and the `-` rule, exactly as read. */
  lemma DecodedBlockHoldsText(path: string, text: string)
    ensures StartsWith(Block(path, Decoded(text)), Header(path))
    ensures EndsWith(Block(path, Decoded(text)), Footer())
    ensures var b := Block(path, Decoded(text));
      b[|Header(path)|..|b| - |Footer()|] == UniversalNewlines(text)
  {
    var b := Block(path, Decoded(text));
    assert b == Header(path) + UniversalNewlines(text) + Footer();
  }

  /** A file that fails to decode keeps the header and the `=` rule already written, followed
      by the binary notice in place of its contents. */
  lemma UndecodableBlockLayout(path: string)
    ensures StartsWith(Block(path, Undecodable), Header(path))
    ensures EndsWith(Block(path, Undecodable), BinaryNotice(path))
    ensures |Block(path, Undecodable)| == |Header(path)| + |BinaryNotice(path)|
  {
  }

  /** The pieces `f(p)` of `paths`, in order, one after the other. */
  function Joined(paths: seq<string>, f: string -> string): string
    decreases |paths|
  {
    if paths == [] then ""
    else Joined(paths[..|paths| - 1], f) + f(paths[|paths| - 1])
  }

  lemma {:induction false} JoinedAppend(a: seq<string>, b: seq<string>, f: string -> string)
    ensures Joined(a + b, f) == Joined(a, f) + Joined(b, f)
    decreases |b|
  {
    if b == [] {
      assert a + b == a;
    } else {
      var n := |b| - 1;
      assert (a + b)[..|a + b| - 1] == a + b[..n];
      assert (a + b)[|a + b| - 1] == b[n];
      JoinedAppend(a, b[..n], f);
    }
  }

  /** The contents part: the blocks of `paths`, in order. */
  function ContentSection(paths: seq<string>, read: string -> Content): string
  {
    Joined(paths, p => Block(p, read(p)))
  }

  /** Every block is written out, so the contents part is empty exactly when there are no
      files, and otherwise it closes with the last file's block and its `-` rule. */
  lemma ContentSectionEnds(paths: seq<string>, read: string -> Content)
    ensures ContentSection(paths, read) == "" <==> paths == []
    ensures paths != [] ==> EndsWith(ContentSection(paths, read), Block(paths[|paths| - 1], read(paths[|paths| - 1])))
    ensures paths != [] ==> EndsWith(ContentSection(paths, read), Footer())
  {
    if paths != [] {
      var c := ContentSection(paths, read);
      var last := Block(paths[|paths| - 1], read(paths[|paths| - 1]));
      assert c == Joined(paths[..|paths| - 1], p => Block(p, read(p))) + last;
      assert c[|c| - |last|..] == last;
      assert last[|last| - |Footer()|..] == Footer();
      assert c[|c| - |Footer()|..] == last[|last| - |Footer()|..];
    }
  }

  lemma ContentSectionAppend(a: seq<string>, b: seq<string>, read: string -> Content)
    ensures ContentSection(a + b, read) == ContentSection(a, read) + ContentSection(b, read)
  {
    JoinedAppend(a, b, p => Block(p, read(p)));
  }

  /** The contents part of one more file is its block appended to the rest. */
  lemma ContentSectionSnoc(paths: seq<string>, path: string, read: string -> Content)
    ensures ContentSection(paths + [path], read) == ContentSection(paths, read) + Block(path, read(path))
  {
    assert (paths + [path])[..|paths|] == paths;
  }

  // ---------------------------------------------------------------------------------------
  // The whole output

  /** `mid` between `head` and `tail`. */
  function Framed(head: string, mid: string, tail: string): (r: string)
    ensures StartsWith(r, head) && EndsWith(r, tail)
  {
    var r := head + mid + tail;
    assert r[..|head|] == head && r[|r| - |tail|..] == tail;
    r
  }

  /** The structure part: the project name, the tree, and the heading of the contents part. */
  function StructureSection(rootName: string, paths: seq<string>): (r: string)
    ensures StartsWith(r, "Project: " + rootName + "\n" + "Directory Structure:\n")
    ensures EndsWith(r, "\nFile Contents:\n" + Rule('=') + "\n\n")
  {
    Framed("Project: " + rootName + "\n" + "Directory Structure:\n", Text(Render([], paths)),
           "\nFile Contents:\n" + Rule('=') + "\n\n")
  }

  /** The output file for the sorted selection `files`. */
  function Artifact(rootName: string, files: seq<string>, read: string -> Content, showStructure: bool): (r: string)
    ensures showStructure ==> StartsWith(r, StructureSection(rootName, files))
    ensures !showStructure ==> r == ContentSection(files, read)
    ensures EndsWith(r, ContentSection(files, read))
  {
    (if showStructure then StructureSection(rootName, files) else "") + ContentSection(files, read)
  }

  /** The files of a walk that pass the inclusion predicate, in walk order. */
  function Selected(walk: seq<string>, includes: seq<string>, ignores: seq<string>): (r: seq<string>)
    ensures forall p :: p in r <==> p in walk && ShouldInclude(p, includes, ignores)
    ensures forall p :: multiset(r)[p] == if ShouldInclude(p, includes, ignores) then multiset(walk)[p] else 0
    decreases |walk|
  {
    if walk == [] then []
    else
      var n := |walk| - 1;
      assert walk == walk[..n] + [walk[n]];
      Selected(walk[..n], includes, ignores) + (if ShouldInclude(walk[n], includes, ignores) then [walk[n]] else [])
  }

  /** `patterns or []`: a missing list of patterns is the empty list. */
  function OrEmpty(patterns: Option<seq<string>>): (r: seq<string>)
    ensures patterns.None? ==> r == []
    ensures patterns.Some? ==> r == patterns.value
  {
    if patterns.Some? then patterns.value else []
  }

  /** An absent ignore list means the default patterns; a given one, even empty, replaces them. */
  function IgnoresOf(ignores: Option<seq<string>>): (r: seq<string>)
    ensures ignores.None? ==> r == DefaultIgnorePatterns()
    ensures ignores.Some? ==> r == ignores.value
  {
    if ignores.None? then DefaultIgnorePatterns() else ignores.value
  }

  /** The collection loop over the walk: the files passing the inclusion predicate, in walk
      order. */
  method CollectIncluded(walk: seq<string>, includes: seq<string>, ignores: seq<string>)
    returns (included: seq<string>)
    ensures included == Selected(walk, includes, ignores)
  {
    included := [];
    for k := 0 to |walk|
      invariant included == Selected(walk[..k], includes, ignores)
    {
      assert walk[..k + 1][..k] == walk[..k];
      if ShouldInclude(walk[k], includes, ignores) {
        included := included + [walk[k]];
      }
    }
    assert walk[..|walk|] == walk;
  }

  /** The writes for one file. */
  method WriteBlock(path: string, content: Content) returns (out: string)
    ensures out == Block(path, content)
  {
    out := "\n# File: " + path + "\n";
    out := out + Rule('=') + "\n";
    match content
    case Decoded(text) =>
      out := out + UniversalNewlines(text);
      out := out + "\n" + Rule('-') + "\n";
    case Undecodable =>
      out := out + "\n# File: " + path + " (binary file - contents skipped)\n";
      out := out + Rule('-') + "\n";
  }

  /** The loop writing the contents part. */
  method WriteContents(files: seq<string>, read: string -> Content) returns (out: string)
    ensures out == ContentSection(files, read)
  {
    out := "";
    for k := 0 to |files|
      invariant out == ContentSection(files[..k], read)
    {
      var block := WriteBlock(files[k], read(files[k]));
      assert files[..k + 1] == files[..k] + [files[k]];
      ContentSectionSnoc(files[..k], files[k], read);
      out := out + block;
    }
    assert files[..|files|] == files;
  }

  /** The writes of the structure part. */
  method WriteStructureSection(rootName: string, files: seq<string>) returns (out: string)
    ensures out == StructureSection(rootName, files)
  {
    out := "Project: " + rootName + "\n";
    out := out + "Directory Structure:\n";
    var tree := WriteStructure(files);
    out := out + tree;
    ghost var body := out;
    out := out + "\nFile Contents:\n";
    out := out + Rule('=') + "\n\n";
    assert out == body + ("\nFile Contents:\n" + Rule('=') + "\n\n");
  }

  /** Collects the selected files of the walk, sorts them, writes the tree when asked for and
      then one block per file. */
  method ConcatenateFiles(rootName: string, walk: seq<string>, read: string -> Content,
                          includes: Option<seq<string>>, ignores: Option<seq<string>>,
                          showStructure: bool) returns (out: string)
    ensures out == Artifact(rootName, Sort(Selected(walk, OrEmpty(includes), IgnoresOf(ignores))),
                            read, showStructure)
  {
    var ignorePatterns := IgnoresOf(ignores);
    var includePatterns := OrEmpty(includes);
    var included := CollectIncluded(walk, includePatterns, ignorePatterns);
    included := Sort(included);

    out := "";
    if showStructure {
      out := WriteStructureSection(rootName, included);
    }
    var contents := WriteContents(included, read);
    out := out + contents;
  }

  /** The command line's combining run: the defaults plus any `--ignore` patterns are always
      passed on, together with the `--include` patterns as given. */
  method CombineProject(rootName: string, walk: seq<string>, read: string -> Content,
                        includes: Option<seq<string>>, userIgnores: Option<seq<string>>,
                        noStructure: bool) returns (out: string)
    ensures out == Artifact(rootName,
                            Sort(Selected(walk, OrEmpty(includes),
                                          DefaultIgnorePatterns() + OrEmpty(userIgnores))),
                            read, !noStructure)
  {
    var patterns := BuildIgnorePatterns(userIgnores);
    assert patterns == DefaultIgnorePatterns() + OrEmpty(userIgnores);
    out := ConcatenateFiles(rootName, walk, read, includes, Some(patterns), !noStructure);
  }

  // ---------------------------------------------------------------------------------------
  // Properties of the output

  /** The walk's order does not show in the output: two walks listing the same files give
      the same output. */
  lemma WalkOrderIrrelevant(rootName: string, walk1: seq<string>, walk2: seq<string>,
                            read: string -> Content, includes: seq<string>, ignores: seq<string>,
                            showStructure: bool)
    requires multiset(walk1) == multiset(walk2)
    ensures Artifact(rootName, Sort(Selected(walk1, includes, ignores)), read, showStructure)
         == Artifact(rootName, Sort(Selected(walk2, includes, ignores)), read, showStructure)
  {
    var s1, s2 := Selected(walk1, includes, ignores), Selected(walk2, includes, ignores);
    assert multiset(s1) == multiset(s2) by {
      forall p ensures multiset(s1)[p] == multiset(s2)[p] {
      }
    }
    SortIgnoresOrder(s1, s2);
  }

  /** Files appear in ascending order of their relative paths, each selected file once per
      time the walk lists it, and no other file. */
  lemma OutputOrder(walk: seq<string>, includes: seq<string>, ignores: seq<string>)
    ensures Sorted(Sort(Selected(walk, includes, ignores)))
    ensures var files := Sort(Selected(walk, includes, ignores));
      forall p :: multiset(files)[p] == if ShouldInclude(p, includes, ignores) then multiset(walk)[p] else 0
  {
  }

  /** The structure part is written before any block, and the blocks follow in file order. */
  lemma {:induction false} ArtifactLayout(rootName: string, files: seq<string>, read: string -> Content,
                                          showStructure: bool, k: nat)
    requires k <= |files|
    ensures StartsWith(Artifact(rootName, files, read, showStructure),
                       (if showStructure then StructureSection(rootName, files) else "")
                         + ContentSection(files[..k], read))
  {
    ContentSectionAppend(files[..k], files[k..], read);
    assert files[..k] + files[k..] == files;
  }

  /** Passing no ignore list and passing the defaults explicitly give the same output, which
      is what the command line does when no `--ignore` patterns are given. */
  lemma DefaultsWhenNoIgnores(rootName: string, walk: seq<string>, read: string -> Content,
                              includes: Option<seq<string>>, showStructure: bool)
    ensures Artifact(rootName, Sort(Selected(walk, OrEmpty(includes), IgnoresOf(None))), read, showStructure)
         == Artifact(rootName, Sort(Selected(walk, OrEmpty(includes), DefaultIgnorePatterns() + OrEmpty(None))),
                     read, showStructure)
  {
    assert DefaultIgnorePatterns() + [] == DefaultIgnorePatterns();
  }
}
