# concat_proj in Dafny

`concat_proj.py` walks a project directory and writes one text file. The file holds a tree of
the selected files, then each selected file's contents under a `# File:` header. This project
models the core of that script and proves properties of the model:

- **the file selector** (`should_include_file`). It rejects hidden segments, `venv` in any
  letter case and a trailing `~`. It then applies the ignore globs, then the include globs.
  The globs are matched by a model of POSIX `fnmatch`.
- **the default ignore list** and how the command line composes it with `--ignore`.
- **the structure renderer**: the loop that keeps a memo of directory names, one slot per
  depth, and writes `├── dir/` headers and `├── file` lines.
- **the output layout**: one block per file, a decoded file's text as text-mode reading
  delivers it, and the undecodable case.
- **the pipeline of `concatenate_files`**: collect, sort, draw the tree, write the blocks.
- **`--list-extensions`**: `os.path.splitext` on every file name, the set of non-empty
  extensions, and the sorted listing.

The files:

- `option.dfy`: module `Optional`, Python's `None`-or-value arguments.
- `paths.dfy`: module `Paths`, path segments, substring search and lower-casing.
- `glob.dfy`: module `Glob`, the `fnmatch` model.
- `order.dfy`: module `Order`, Python's string order, `list.sort()` and `sorted(set)`.
- `selector.dfy`: module `Selector`, the selector and the ignore lists.
- `structure.dfy`: module `Structure`, the renderer.
- `concatenate.dfy`: module `Concatenate`, the blocks, the output and the pipeline.
- `extensions.dfy`: module `Extensions`, the extension listing.
- `scenario.dfy`: module `Scenario`, one run carried through the model: the walk `a/b.py`,
  `a/.hidden`, `venv/x.py`, `a/c.txt` with `--include "**.py"` and the defaults.

The source does this by changing state, so these parts are methods with loops, proved
against functions that specify them:

- the renderer's loops: `Structure.WriteHeaders` and `Structure.WriteStructure`, against
  `Structure.Render`;
- the collection loop: `Concatenate.CollectIncluded`, against `Concatenate.Selected`;
- the content loop: `Concatenate.WriteContents`, against `Concatenate.ContentSection`;
- the set-building loop: `Extensions.FileExtensions`, against `Extensions.ExtensionSet`.

The ignore-list composition, `Selector.BuildIgnorePatterns`, is a method too: it has no loop,
but it extends the default list in place with the `--ignore` patterns.

The selector, the glob matcher, the default list and the block layout are functions.

In these places the code does something a reader might not expect, and the model follows the code:

- **An undecodable file's block.** The source writes `"\n# File: p\n"` and the `=` rule
  *before* `infile.read()` raises `UnicodeDecodeError` (concat_proj.py:174-181). Only then
  does it write the `(binary file - contents skipped)` notice and the `-` rule. So the
  output holds the ordinary header and the notice, not the notice alone.
  `Concatenate.Block` and `Concatenate.UndecodableBlockLayout` state this.
- **Text-mode reading.** The file is read in text mode, which turns `\r\n` and a lone
  `\r` into `\n`. The model writes the contents through `Concatenate.UniversalNewlines`,
  not byte for byte.
- **Top-level files and the defaults.** Every default pattern starts with two stars and a
  slash, and `fnmatch` needs a `/` to match that slash. So no default pattern matches a file
  at the top of the tree: a root-level `concat_proj.py`, `x.pyc` or `.env` gets past the
  glob checks. The hidden-segment rule still rejects `.env`.
  `Selector.DefaultsMissTopLevelFiles` states this.
- **Stale memo slots.** The renderer does not clear deeper memo slots when a shallower one
  changes. After `a/x/f`, the path `b/x/g` gets a `b/` header and no `x/` header
  (`Structure.StaleDeeperSlot`).
- **The first include pattern.** Adding include patterns to an empty include list can turn
  an acceptance into a rejection (`Selector.FirstIncludeCanReject`). Adding them to a
  non-empty list never can (`Selector.MoreIncludesNeverReject`).

## Model

| member | source | states |
|---|---|---|
| `Selector.DefaultIgnorePatterns` | concat_proj.py:17-76 | the default list holds 41 patterns, each beginning with two stars and a slash |
| `Selector.Subtree` | concat_proj.py:21-29 | the pattern for a directory name begins with two stars and a slash and ends with a slash and two stars |
| `Selector.ContentsOf` | concat_proj.py:37-43 | the pattern for a directory's contents begins with two stars and a slash and ends with a slash and a star |
| `Selector.WithExtension` | concat_proj.py:46-63 | the pattern for an extension begins with two stars, a slash, a star and a dot |
| `Selector.VenvPatterns` | concat_proj.py:20-29 | the virtual-environment group holds 9 patterns, each beginning with two stars and a slash and ending with a slash and two stars, so each names a whole directory subtree |
| `Selector.HiddenPatterns` | concat_proj.py:31-34 | the hidden-file and backup group holds 3 patterns, each beginning with two stars and a slash |
| `Selector.BuildPatterns` | concat_proj.py:36-43 | the build and cache directory group holds 7 patterns, each beginning with two stars and a slash and ending with a slash and a star, so each names what a directory holds |
| `Selector.CompiledPatterns` | concat_proj.py:45-52 | the compiled and binary file group holds 7 patterns, each beginning with two stars, a slash, a star and a dot, so each names a file extension |
| `Selector.PackagePatterns` | concat_proj.py:54-57 | the package file group holds 3 patterns, each beginning with two stars, a slash, a star and a dot, so each names a file extension |
| `Selector.CompressedPatterns` | concat_proj.py:59-63 | the compressed file group holds 4 patterns, each beginning with two stars, a slash, a star and a dot, so each names a file extension |
| `Selector.EditorPatterns` | concat_proj.py:65-71 | the editor backup group holds 6 patterns, each beginning with two stars and a slash |
| `Selector.SelfPatterns` | concat_proj.py:73-75 | the group naming the script and its folder holds 2 patterns, each beginning with two stars and a slash |
| `Selector.BuildIgnorePatterns` | concat_proj.py:228-230 | the effective ignore list is the defaults followed by the `--ignore` patterns, never a replacement of the defaults |
| `Selector.MatchesAny` | concat_proj.py:97-99 | the pattern-search loop finds a match exactly when some pattern of the list matches the path |
| `Selector.MatchesAnyAppend` | concat_proj.py:97-99 | a path matches some pattern of two lists joined iff it matches some pattern of one of them |
| `Selector.ShouldInclude` | concat_proj.py:78-110 | a kept path matches no ignore pattern, and matches some include pattern when any are given |
| `Selector.ShouldIncludeIff` | concat_proj.py:78-110 | a path is kept iff it has no leading dot and no `/.`, no `venv` in any letter case, no trailing `~`, no matching ignore pattern, and either no include patterns or a matching one |
| `Selector.HiddenSegmentIff` | concat_proj.py:84-86 | some segment starts with `.` iff the path starts with `.` or contains `/.` |
| `Selector.VenvSegmentIff` | concat_proj.py:88-90 | some lower-cased segment contains `venv` iff the lower-cased path contains it |
| `Selector.StructuralRulesReject` | concat_proj.py:83-94 | a hidden segment, `venv` or a trailing `~` rejects the path whatever the include and ignore lists hold |
| `Selector.IgnoreWins` | concat_proj.py:96-99 | a matching ignore pattern rejects the path whatever the include list holds |
| `Selector.MoreIgnoresNeverAdmit` | concat_proj.py:96-99 | growing the ignore list never turns a rejection into an acceptance |
| `Selector.EmptyIncludeAcceptsSurvivors` | concat_proj.py:101-103 | with no include patterns, every path that survives the other checks is kept |
| `Selector.MoreIncludesNeverReject` | concat_proj.py:105-110 | growing a non-empty include list never turns an acceptance into a rejection |
| `Selector.FirstIncludeCanReject` | concat_proj.py:101-110 | an empty include list keeps `a.txt`, the list `["**.py"]` drops it |
| `Selector.UserIgnoresOnlyNarrow` | concat_proj.py:228-230 | a path kept with the user's ignore patterns added is kept by the defaults alone |
| `Selector.DefaultsMissTopLevelFiles` | concat_proj.py:19-76 | no default pattern matches a path without `/` |
| `Glob.MatchConcat` | concat_proj.py:98 | a concatenated pattern matches a name iff the name splits into two parts the two halves match |
| `Glob.Match` | concat_proj.py:98 | a pattern without `*` matches only names of its own length; with `MatchConcat`, `StarMatchesAll`, `QuestionMatchesOne` and `LiteralMatch` this fixes what every pattern matches |
| `Glob.QuestionMatchesOne` | concat_proj.py:98 | `?` matches exactly the one-character names, whatever the character, `/` included |
| `Glob.StarMatchesAll` | concat_proj.py:98 | `*` matches every name, `/` included |
| `Glob.LiteralMatch` | concat_proj.py:98 | a pattern without wildcards matches exactly itself |
| `Glob.LeadingStarsMatchSuffix` | concat_proj.py:107 | `**` followed by a literal suffix, as in `"**.py"`, matches exactly the names ending with the suffix |
| `Glob.LiteralCharOccurs` | concat_proj.py:98 | every literal character of a pattern occurs in each name it matches |
| `Glob.AbsentCharNoMatch` | concat_proj.py:98 | a pattern with a literal character the name lacks does not match it |
| `Paths.Segments` | concat_proj.py:84 | a path splits into at least one segment, none holding `/` |
| `Paths.JoinSegments` | concat_proj.py:84 | joining the segments of a path with `/` gives back the path |
| `Paths.SegmentsJoin` | concat_proj.py:154 | splitting segments joined with `/` gives back the segments |
| `Paths.Lower` | concat_proj.py:89 | lower-casing keeps the length and lowers each ASCII capital |
| `Paths.SegmentsOfLower` | concat_proj.py:89 | the segments of the lower-cased path are the lower-cased segments |
| `Paths.OccursIff` | concat_proj.py:89 | the substring test holds iff the substring sits at some index |
| `Paths.Occurs` | concat_proj.py:89 | a substring found in a string is no longer than it |
| `Structure.Indent` | concat_proj.py:158 | the prefix for depth `i` is `4 * i` spaces |
| `Structure.LineText` | concat_proj.py:158-166 | every line of the tree is its indentation, the branch marker, the name (followed by `/` for a directory) and a line break |
| `Structure.PathLines` | concat_proj.py:153-166 | the lines for one path are headers for its directory depths, then its one file line |
| `Structure.Render` | concat_proj.py:152-166 | the tree has at least one line per path |
| `Structure.WritePath` | concat_proj.py:153-166 | one turn of the outer loop writes the text of the path's headers and file line and leaves the memo `UpdatedMemo` describes |
| `Structure.Headers` | concat_proj.py:155-163 | every header written for a path names that path's directory at its depth, with memo slot unset or different, and depths ascend |
| `Structure.UpdatedMemo` | concat_proj.py:155-163 | afterwards memo slot `i` holds the path's `i`-th directory, the memo never shrinks and deeper slots keep their names |
| `Structure.WriteHeaders` | concat_proj.py:155-163 | the inner loop writes exactly the headers `Headers` describes and leaves the memo `UpdatedMemo` describes |
| `Structure.WriteStructure` | concat_proj.py:152-166 | the outer loop writes the text of `Render` over all sorted paths, starting from an empty memo |
| `Structure.HeaderIff` | concat_proj.py:155-163 | a header for depth `d` and name `n` is written iff `d` is a directory depth of the path, `n` its name there, and memo slot `d` is unset or holds another name |
| `Structure.OneFileLinePerPath` | concat_proj.py:153-166 | the tree holds exactly one file line per path, in path order, at the depth of its directories and naming its last segment |
| `Structure.FileLineIndent` | concat_proj.py:165-166 | a file line is indented four spaces per directory segment |
| `Structure.SameDirectoriesNoHeaders` | concat_proj.py:155-163 | a path in the directories the memo already records gets no header |
| `Structure.TopLevelFileHasNoHeader` | concat_proj.py:154-166 | a file at the top of the tree gets only its file line, at depth 0 |
| `Structure.StaleDeeperSlot` | concat_proj.py:160-163 | after `a/x/f`, the path `b/x/g` gets a header for `b` and none for `x` |
| `Structure.TextEnds` | concat_proj.py:159-166 | `Structure.Text`, the tree written line after line, is empty exactly when there are no lines and otherwise ends with the last line |
| `Structure.TextAppend` | concat_proj.py:159 | the text of two runs of lines is the text of the first followed by that of the second |
| `Order.LeqFirstDifference` | concat_proj.py:144 | at the first differing position the string with the smaller code point comes first, and not the other way round |
| `Order.LeqTotal` | concat_proj.py:144 | any two strings are ordered one way or the other |
| `Order.LeqTransitive` | concat_proj.py:144 | string order is transitive |
| `Order.LeqAntisymmetric` | concat_proj.py:144 | two strings ordered both ways are equal |
| `Order.Leq` | concat_proj.py:144 | a prefix of a string is ordered before it; with `LeqFirstDifference`, otherwise the smaller code point at the first difference decides |
| `Order.Sort` | concat_proj.py:144 | sorting yields an ascending list with the same elements, each as often |
| `Order.SortedUnique` | concat_proj.py:143-144 | two ascending lists with the same elements, each as often, are equal |
| `Order.SortIgnoresOrder` | concat_proj.py:143-144 | sorting two arrangements of the same files gives the same list |
| `Order.SortedSet` | concat_proj.py:223 | `sorted(set)` holds every element of the set once, in strictly ascending order |
| `Concatenate.Rule` | concat_proj.py:169 | a rule is 80 copies of one character |
| `Concatenate.UniversalNewlines` | concat_proj.py:174-177 | text-mode reading leaves no `\r` and never lengthens the text |
| `Concatenate.UniversalNewlinesAppend` | concat_proj.py:177 | two pieces of text are read each on its own unless the first ends with `\r` and the second starts with `\n` |
| `Concatenate.CrLfReadAsNewline` | concat_proj.py:177 | every `\r\n` pair is read as one `\n` |
| `Concatenate.LoneCrReadAsNewline` | concat_proj.py:177 | every `\r` not followed by `\n` is read as one `\n` |
| `Concatenate.OtherCharReadUnchanged` | concat_proj.py:177 | every character other than `\r` and `\n` is read as itself |
| `Concatenate.PlainTextReadUnchanged` | concat_proj.py:177 | text without `\r` is read unchanged |
| `Concatenate.ReadingIsIdempotent` | concat_proj.py:177 | reading text that was already read changes nothing |
| `Concatenate.Block` | concat_proj.py:172-181 | every block, decoded or not, opens with the header and the `=` rule and closes with the `-` rule |
| `Concatenate.DecodedBlockHoldsText` | concat_proj.py:175-178 | a decoded file's block starts with its header, ends with the `-` rule, and holds exactly the text as read in between |
| `Concatenate.UndecodableBlockLayout` | concat_proj.py:174-181 | an undecodable file's block is the header already written followed by the binary notice, with nothing from the file |
| `Concatenate.ContentSectionEnds` | concat_proj.py:172-181 | `Concatenate.ContentSection`, the blocks of the files in order, is empty exactly when there are no files and otherwise closes with the last file's block and its `-` rule |
| `Concatenate.ContentSectionAppend` | concat_proj.py:172-181 | the blocks of two runs of files are the blocks of the first followed by those of the second |
| `Concatenate.ContentSectionSnoc` | concat_proj.py:172-181 | one more file appends exactly its block |
| `Concatenate.StructureSection` | concat_proj.py:148-169 | the structure part opens with the project line and the `Directory Structure:` heading and closes with the `File Contents:` heading and the `=` rule |
| `Concatenate.Artifact` | concat_proj.py:146-181 | the output opens with the structure part when it is shown, is the contents part alone otherwise, and always ends with the contents part |
| `Concatenate.Selected` | concat_proj.py:135-141 | a file is collected iff the walk lists it and the selector keeps it, and as often as the walk lists it |
| `Concatenate.IgnoresOf` | concat_proj.py:128-129 | a missing ignore list means the defaults; a given one, even empty, is used as it is |
| `Concatenate.OrEmpty` | concat_proj.py:140 | a missing include list is the empty list; a given one is used as it is |
| `Concatenate.CollectIncluded` | concat_proj.py:135-141 | the collection loop gathers exactly the selected files, in walk order |
| `Concatenate.WriteBlock` | concat_proj.py:173-181 | the writes for one file produce its block, in the decoded and in the undecodable case |
| `Concatenate.WriteContents` | concat_proj.py:172-181 | the content loop writes the blocks of the sorted files in order |
| `Concatenate.WriteStructureSection` | concat_proj.py:148-169 | the structure part is the project line, the heading, the tree, the contents heading and the `=` rule |
| `Concatenate.ConcatenateFiles` | concat_proj.py:116-181 | the output is the structure part when asked for, then the blocks of the selected files in ascending path order |
| `Concatenate.CombineProject` | concat_proj.py:228-238 | a command-line run passes the defaults plus the `--ignore` patterns and shows the tree unless `--no-structure` is given |
| `Concatenate.WalkOrderIrrelevant` | concat_proj.py:143-144 | two walks listing the same files give the same output |
| `Concatenate.OutputOrder` | concat_proj.py:135-144 | the written files ascend by relative path and are exactly the selected files of the walk |
| `Concatenate.ArtifactLayout` | concat_proj.py:146-181 | the structure part comes before every block, and the blocks follow in file order |
| `Concatenate.DefaultsWhenNoIgnores` | concat_proj.py:128-129 | a missing ignore list gives the same output as the command line with no `--ignore` patterns |
| `Scenario.NoSlashDotIn` | concat_proj.py:84-86 | `a/b.py` holds no `/.` and `**/.*` does not match it |
| `Scenario.DefaultsMissScenarioFile` | concat_proj.py:17-76 | none of the 41 default patterns matches `a/b.py` |
| `Scenario.ScenarioFileNotStructural` | concat_proj.py:83-94 | `a/b.py` has no hidden segment, no `venv` segment and no trailing `~` |
| `Scenario.ScenarioFileMatchesInclude` | concat_proj.py:105-110 | `a/b.py` matches the include pattern `**.py` |
| `Scenario.ScenarioFileKept` | concat_proj.py:78-110 | with `--include "**.py"` and the defaults, `a/b.py` is kept |
| `Scenario.ScenarioOthersDropped` | concat_proj.py:83-110 | `a/.hidden` (hidden segment), `venv/x.py` (`venv`) and `a/c.txt` (no include match) are dropped |
| `Scenario.ScenarioSelection` | concat_proj.py:135-144 | the collected and sorted files of the walk `a/b.py`, `a/.hidden`, `venv/x.py`, `a/c.txt` are `a/b.py` alone |
| `Scenario.ScenarioOutput` | concat_proj.py:152-181 | the tree of `a/b.py` is the header `a` at depth 0 above `b.py` at depth 1, and the contents part is that file's block alone |
| `Extensions.LastIndex` | concat_proj.py:12 | the last occurrence of a character, or -1 when there is none |
| `Extensions.Extension` | concat_proj.py:12 | an extension is empty, or a dot followed by no dot and no `/`, and it is a suffix of the name |
| `Extensions.Stem` | concat_proj.py:12 | the first half of `splitext`: stem and extension together give back the name |
| `Extensions.ExtensionOfName` | concat_proj.py:12 | a stem that is not all dots, a dot and a dot-free suffix have exactly that dot and suffix as extension |
| `Extensions.NoExtensionWithoutInnerDot` | concat_proj.py:12-13 | a name with no dot after a character other than a dot has no extension |
| `Extensions.DotFileHasNoExtension` | concat_proj.py:12-13 | a dot file such as `.bashrc` has no extension |
| `Extensions.FileExtensions` | concat_proj.py:7-15 | the loop collects exactly the non-empty extensions of the names, each a dot followed by no dot |
| `Extensions.ExtensionSet` | concat_proj.py:9-15 | every collected extension is a dot followed by no dot, and every non-empty extension of a name is collected |
| `Extensions.Indented` | concat_proj.py:224 | every extension line is the extension indented by two spaces |
| `Extensions.PrintListing` | concat_proj.py:222-224 | the printing loop writes the heading, then each sorted extension indented |
| `Extensions.ListExtensions` | concat_proj.py:220-225 | the listing mode prints the heading and `sorted` of the collected extensions |
| `Extensions.Listing` | concat_proj.py:222-224 | the listing is the heading followed by one line per collected extension |
| `Extensions.LeqIndented` | concat_proj.py:223-224 | indenting both lines alike keeps their order |
| `Extensions.ListingMembership` | concat_proj.py:223-224 | a line names an extension iff that extension was collected |
| `Extensions.IndentedOrder` | concat_proj.py:223-224 | indenting a strictly ascending list keeps it strictly ascending |
| `Extensions.ListingOrder` | concat_proj.py:223-224 | the extension lines ascend strictly, so none is repeated |
| `Extensions.ListingContents` | concat_proj.py:220-224 | the listing has the heading and one line per distinct non-empty extension of the names, in ascending order, and nothing else |

## Left out

- The directory walk (`os.walk`, concat_proj.py:10-11 and 135-138). It is a parameter: a
  sequence of clean `/`-separated relative paths, or of base names for the listing, in the
  order the walk yields them. `get_relative_path` and `os.path.join` are not modelled.
- Reading and decoding files (`open`, `read`, `UnicodeDecodeError`). Each file's content is
  given by a function from relative path to `Decoded(text)` or `Undecodable`.
- I/O errors: a missing root, permissions, a failed write. They end the run in the source
  and are not modelled.
- The output file listed by the walk. With the defaults (`--root .` and
  `--output project_combined.txt`) a second run walks the first run's output. It is a
  top-level `.txt` file, so no rule and no default pattern rejects it
  (`Selector.DefaultsMissTopLevelFiles`). The source reads it at concat_proj.py:174-177,
  after `open(output_path, 'w')` at concat_proj.py:146 has truncated it, so its block holds
  whatever part of the current output has been flushed by then. In the model, `read` fixes
  each file's contents before the run, so this self-reading is not captured.
- The output file. It is returned as a string, and its newlines are written as `\n`, as on
  POSIX.
- The project name. `os.path.basename(os.path.abspath(root))` is a string parameter.
- `Path` normalisation and the `os.sep` replacement (concat_proj.py:81). They are the
  identity on the clean relative paths modelled here.
- `fnmatch` bracket classes `[...]`. A `[` or `]` is matched literally; the default
  patterns use none. Windows `normcase` is left out too: matching is POSIX and
  case-sensitive.
- Paths.Lower: lower-cases ASCII letters only. Unicode case mapping of other characters
  is left out.
- The sort of `(relative path, full path)` pairs. It is modelled as a sort of the relative
  paths. The full path is the root joined with the relative path, so both sorts give the
  same order.
- `argparse` and the completion messages printed after a run (concat_proj.py:186-218 and
  240-242).
