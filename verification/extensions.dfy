/** `get_file_extensions` and the `--list-extensions` listing, over the base names of the files
    a walk visits. */
module Extensions {
  import opened Paths
  import opened Order

  /** The index of the last `c` in `s` (`str.rfind`), or -1 when there is none. */
  function LastIndex(s: string, c: char): (i: int)
    ensures -1 <= i < |s|
    ensures i >= 0 ==> s[i] == c
    ensures forall j :: i < j < |s| ==> s[j] != c
    decreases |s|
  {
    if s == [] then -1
    else if s[|s| - 1] == c then |s| - 1
    else LastIndex(s[..|s| - 1], c)
  }

  /** The second half of `os.path.splitext(name)`: from the last `.` after the last `/` to the
      end, provided some character other than `.` precedes that dot within the last segment;
      otherwise empty, so the leading dots of a name never start an extension. */
  function Extension(name: string): (ext: string)
    ensures ext == [] || (ext[0] == '.' && '.' !in ext[1..] && '/' !in ext)
    ensures |ext| <= |name| && name[|name| - |ext|..] == ext
  {
    var sep := LastIndex(name, '/');
    var dot := LastIndex(name, '.');
    if dot > sep && exists k :: sep + 1 <= k < dot && name[k] != '.' then name[dot..] else ""
  }

  /** The first half of `os.path.splitext(name)`: with the extension it gives back the name. */
  function Stem(name: string): (stem: string)
    ensures stem + Extension(name) == name
  {
    name[..|name| - |Extension(name)|]
  }

  /** A name made of a stem that is not all dots, a dot and a dot-free suffix has exactly that
      dot and suffix as its extension. */
  lemma ExtensionOfName(stem: string, suffix: string)
    requires '/' !in stem && '/' !in suffix && '.' !in suffix
    requires exists k :: 0 <= k < |stem| && stem[k] != '.'
    ensures Extension(stem + "." + suffix) == "." + suffix
  {
    var name := stem + "." + suffix;
    assert name[|stem|] == '.';
    assert forall j :: |stem| < j < |name| ==> name[j] == suffix[j - |stem| - 1];
    assert LastIndex(name, '.') == |stem|;
    var k :| 0 <= k < |stem| && stem[k] != '.';
    assert name[k] == stem[k];
    assert name[|stem|..] == "." + suffix;
  }

  /** A name with no dot after a character other than a dot (`README`, `.bashrc`, `..`) has no
      extension. */
  lemma NoExtensionWithoutInnerDot(name: string)
    requires '/' !in name
    requires forall i, j :: 0 <= i < j < |name| && name[i] != '.' ==> name[j] != '.'
    ensures Extension(name) == ""
  {
  }

  /** A dot file such as `.bashrc` has no extension. */
  lemma DotFileHasNoExtension(name: string, rest: string)
    requires name == "." + rest && '.' !in rest && '/' !in rest
    ensures Extension(name) == ""
  {
    forall i, j | 0 <= i < j < |name| && name[i] != '.' ensures name[j] != '.' {
      assert name[j] == rest[j - 1];
    }
    NoExtensionWithoutInnerDot(name);
  }

  /** The distinct non-empty extensions of `names`. */
  function ExtensionSet(names: seq<string>): (r: set<string>)
    ensures forall e :: e in r ==> e != "" && e[0] == '.' && '.' !in e[1..]
    ensures forall n :: n in names && Extension(n) != "" ==> Extension(n) in r
  {
    set n | n in names && Extension(n) != "" :: Extension(n)
  }

  /** The loop over the walked names adding each non-empty extension to a set. */
  method FileExtensions(names: seq<string>) returns (extensions: set<string>)
    ensures extensions == ExtensionSet(names)
    ensures forall e :: e in extensions ==> e != "" && e[0] == '.' && '.' !in e[1..]
  {
    extensions := {};
    for i := 0 to |names|
      invariant extensions == ExtensionSet(names[..i])
    {
      var ext := Extension(names[i]);
      assert names[..i + 1] == names[..i] + [names[i]];
      if ext != "" {
        extensions := extensions + {ext};
      }
    }
    assert names[..|names|] == names;
  }

  const ListingHeading: string := "File extensions found in project:"

  /** Each of `xs` on a line of its own, indented by two spaces. */
  function Indented(xs: seq<string>): (lines: seq<string>)
    ensures |lines| == |xs|
    ensures forall i :: 0 <= i < |xs| ==> lines[i] == "  " + xs[i]
  {
    seq(|xs|, i requires 0 <= i < |xs| => "  " + xs[i])
  }

  /** The printed lines of the listing: the heading, then one indented line per extension of
      `sorted(extensions)`. */
  function Listing(extensions: set<string>): (lines: seq<string>)
    ensures |lines| == |extensions| + 1 && lines[0] == ListingHeading
  {
    [ListingHeading] + Indented(SortedSet(extensions))
  }

  /** The printing loop: the heading, then each of `sorted` indented. */
  method PrintListing(sorted: seq<string>) returns (lines: seq<string>)
    ensures lines == [ListingHeading] + Indented(sorted)
  {
    lines := [ListingHeading];
    for i := 0 to |sorted|
      invariant |lines| == i + 1 && lines[0] == ListingHeading
      invariant forall j :: 0 <= j < i ==> lines[j + 1] == "  " + sorted[j]
    {
      lines := lines + ["  " + sorted[i]];
    }
  }

  /** `--list-extensions`: collects the extensions, then prints the heading and the sorted
      extensions one per line. */
  method ListExtensions(names: seq<string>) returns (lines: seq<string>)
    ensures lines == Listing(ExtensionSet(names))
  {
    var extensions := FileExtensions(names);
    lines := PrintListing(SortedSet(extensions));
  }

  /** Prefixing both sides with the same indentation keeps their order. */
  lemma {:induction false} LeqIndented(p: string, a: string, b: string)
    ensures Leq(p + a, p + b) <==> Leq(a, b)
    decreases |p|
  {
    if p == [] {
      assert p + a == a && p + b == b;
    } else {
      assert (p + a)[0] == p[0] == (p + b)[0];
      assert (p + a)[1..] == p[1..] + a && (p + b)[1..] == p[1..] + b;
      LeqIndented(p[1..], a, b);
    }
  }

  /** A line of the listing names an extension exactly when that extension was collected. */
  lemma ListingMembership(extensions: set<string>, e: string)
    ensures "  " + e in Listing(extensions)[1..] <==> e in extensions
  {
    var sorted := SortedSet(extensions);
    var lines := Listing(extensions);
    assert lines[1..] == Indented(sorted);
    if "  " + e in lines[1..] {
      var i :| 0 <= i < |sorted| && lines[1..][i] == "  " + e;
      assert sorted[i] == ("  " + sorted[i])[2..];
      assert e == ("  " + e)[2..];
    }
    if e in extensions {
      var i :| 0 <= i < |sorted| && sorted[i] == e;
      assert lines[1..][i] == "  " + e;
    }
  }

  /** Lines indented alike are equal only when their texts are. */
  lemma IndentedInjective(p: string, a: string, b: string)
    ensures p + a == p + b ==> a == b
  {
    if p + a == p + b {
      assert a == (p + a)[|p|..] && b == (p + b)[|p|..];
    }
  }

  /** Indenting a strictly ascending list keeps it strictly ascending. */
  lemma IndentedOrder(xs: seq<string>)
    requires StrictlyIncreasing(xs)
    ensures StrictlyIncreasing(Indented(xs))
  {
    var lines := Indented(xs);
    forall i, j | 0 <= i < j < |lines| ensures Leq(lines[i], lines[j]) && lines[i] != lines[j] {
      LeqIndented("  ", xs[i], xs[j]);
      IndentedInjective("  ", xs[i], xs[j]);
    }
  }

  /** The extension lines ascend strictly, so none is repeated. */
  lemma ListingOrder(extensions: set<string>)
    ensures var lines := Listing(extensions);
      forall i, j :: 1 <= i < j < |lines| ==> Leq(lines[i], lines[j]) && lines[i] != lines[j]
  {
    var lines := Listing(extensions);
    var body := Indented(SortedSet(extensions));
    IndentedOrder(SortedSet(extensions));
    forall i, j | 1 <= i < j < |lines| ensures Leq(lines[i], lines[j]) && lines[i] != lines[j] {
      assert lines[i] == body[i - 1] && lines[j] == body[j - 1];
    }
  }

  /** The listing holds every non-empty extension of the names on exactly one line, in
      ascending order, and nothing else. */
  lemma ListingContents(names: seq<string>)
    ensures var lines := Listing(ExtensionSet(names));
      && |lines| == |ExtensionSet(names)| + 1
      && lines[0] == ListingHeading
      && (forall e :: "  " + e in lines[1..] <==> (exists n :: n in names && e == Extension(n) && e != ""))
      && (forall i, j :: 1 <= i < j < |lines| ==> Leq(lines[i], lines[j]) && lines[i] != lines[j])
  {
    forall e ensures "  " + e in Listing(ExtensionSet(names))[1..] <==> e in ExtensionSet(names) {
      ListingMembership(ExtensionSet(names), e);
    }
    ListingOrder(ExtensionSet(names));
  }
}
