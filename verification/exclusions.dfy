/** File extensions and the configured list of extensions that an archive
    job leaves out (`FilesCompresor.getExcludeExtensions` and the
    `FilenameUtils.getExtension` call of its walk filter). */
module Exclusions {
  import opened Wrappers
  import opened Text

  /** `FilenameUtils.getExtension`: the text after the last `.`, without the
      dot; empty when the name has no dot, or when a slash or a backslash
      comes after the last dot (the library takes either for a directory
      separator). */
  function GetExtension(name: string): (r: string)
    ensures '.' !in r && '/' !in r && '\\' !in r
    ensures '.' !in name ==> r == ""
    ensures r != "" ==> |r| < |name| && name[|name| - |r| - 1] == '.' && name[|name| - |r|..] == r
  {
    match LastIndexOf(name, '.')
    case None => ""
    case Some(i) =>
      var tail := name[i + 1..];
      if '/' in tail || '\\' in tail then "" else tail
  }

  /** The extension is decided by the last dot: the text after it, unless a
      separator occurs there. */
  lemma ExtensionAfterLastDot(name: string, i: nat)
    requires i < |name| && name[i] == '.' && '.' !in name[i + 1..]
    ensures '/' !in name[i + 1..] && '\\' !in name[i + 1..] ==> GetExtension(name) == name[i + 1..]
    ensures '/' in name[i + 1..] || '\\' in name[i + 1..] ==> GetExtension(name) == ""
  {
    LastIndexOfUnique(name, '.', i);
  }

  /** A name built as `base.ext` has extension `ext`, whatever `base` holds. */
  lemma ExtensionOfDotted(base: string, ext: string)
    requires '.' !in ext && '/' !in ext && '\\' !in ext
    ensures GetExtension(base + "." + ext) == ext
  {
    var name := base + "." + ext;
    assert name[|base| + 1..] == ext;
    ExtensionAfterLastDot(name, |base|);
  }

  /** The value used when `fft.exclude.extension` is not configured. */
  const DefaultExcludes: string := ".html,.exe,.txt,.readme,.nfo,.link"

  /** `getExcludeExtensions`: the pieces of the configured value (or of the
      default) split at commas. */
  function ExcludeExtensions(configured: Option<string>): set<string>
  {
    set x | x in JavaSplit(configured.GetOr(DefaultExcludes), ',')
  }

  /** The default exclusion set, entry by entry. Every entry keeps its
      leading dot. */
  lemma DefaultExclusions()
    ensures ExcludeExtensions(None) == {".html", ".exe", ".txt", ".readme", ".nfo", ".link"}
  {
    var pieces := [".html", ".exe", ".txt", ".readme", ".nfo", ".link"];
    DefaultPieces();
    DefaultPieceSet();
    assert None.GetOr(DefaultExcludes) == DefaultExcludes;
    assert ExcludeExtensions(None) == set x | x in pieces;
  }

  /** The six default entries, as a set. */
  lemma DefaultPieceSet()
    ensures (set x | x in [".html", ".exe", ".txt", ".readme", ".nfo", ".link"]) == {".html", ".exe", ".txt", ".readme", ".nfo", ".link"}
  {
  }

  /** The default value splits into its six entries. */
  lemma DefaultPieces()
    ensures JavaSplit(DefaultExcludes, ',') == [".html", ".exe", ".txt", ".readme", ".nfo", ".link"]
  {
    var pieces := [".html", ".exe", ".txt", ".readme", ".nfo", ".link"];
    DefaultIsJoin();
    JavaSplitJoin(pieces, ',');
  }

  /** The default value is its six entries joined with commas. */
  lemma DefaultIsJoin()
    ensures Join([".html", ".exe", ".txt", ".readme", ".nfo", ".link"], ',') == DefaultExcludes
  {
    JoinSix(".html", ".exe", ".txt", ".readme", ".nfo", ".link", ',');
    assert ".html" + "," + ".exe" + "," + ".txt" == ".html,.exe,.txt";
    assert ".readme" + "," + ".nfo" + "," + ".link" == ".readme,.nfo,.link";
  }

  /** Six pieces joined: each piece followed by the separator, but the last. */
  lemma JoinSix(a: string, b: string, c: string, d: string, e: string, f: string, sep: char)
    ensures Join([a, b, c, d, e, f], sep) == a + [sep] + b + [sep] + c + [sep] + d + [sep] + e + [sep] + f
  {
    JoinCons(a, [b, c, d, e, f], sep);
    assert [a] + [b, c, d, e, f] == [a, b, c, d, e, f];
    JoinCons(b, [c, d, e, f], sep);
    assert [b] + [c, d, e, f] == [b, c, d, e, f];
    JoinCons(c, [d, e, f], sep);
    assert [c] + [d, e, f] == [c, d, e, f];
    JoinCons(d, [e, f], sep);
    assert [d] + [e, f] == [d, e, f];
    JoinCons(e, [f], sep);
    assert [e] + [f] == [e, f];
  }

  /** Every default entry starts with a dot. */
  lemma DefaultsAreDotted()
    ensures forall x :: x in [".html", ".exe", ".txt", ".readme", ".nfo", ".link"] ==> |x| > 0 && x[0] == '.'
  {
  }


  /** A configured exclusion list keeps exactly its non-empty comma-separated
      pieces, never anything holding a comma. It holds the empty extension
      (so files without one are left out) exactly when an empty piece comes
      before a non-empty one, or when the value is empty. */
  lemma ConfiguredExclusions(s: string)
    ensures forall x :: x in ExcludeExtensions(Some(s)) ==> x in SplitAll(s, ',') && ',' !in x
    ensures forall x :: x in SplitAll(s, ',') && x != "" ==> x in ExcludeExtensions(Some(s))
    ensures s == "" ==> ExcludeExtensions(Some(s)) == {""}
    ensures s != "" ==> ("" in ExcludeExtensions(Some(s)) <==> EmptyBeforeNonEmpty(SplitAll(s, ',')))
  {
    var all := SplitAll(s, ',');
    var kept := JavaSplit(s, ',');
    JavaSplitPieces(s, ',');
    forall x | x in kept
      ensures x in all && ',' !in x
    {
      var i :| 0 <= i < |kept| && kept[i] == x;
      assert all[i] == x;
    }
    forall x | x in all && x != ""
      ensures x in kept
    {
      var i :| 0 <= i < |all| && all[i] == x;
      assert i < |kept|;
      assert kept[i] == x;
    }
    if s != "" {
      EmptyExtensionExcluded(s);
    }
  }

  /** For a non-empty value, the empty extension is among the pieces kept
      exactly when an empty piece comes before a non-empty one. */
  lemma EmptyExtensionExcluded(s: string)
    requires s != ""
    ensures "" in JavaSplit(s, ',') <==> EmptyBeforeNonEmpty(SplitAll(s, ','))
  {
    var all := SplitAll(s, ',');
    var kept := JavaSplit(s, ',');
    JavaSplitPieces(s, ',');
    if "" in kept {
      var i :| 0 <= i < |kept| && kept[i] == "";
      assert all[i] == "" && all[|kept| - 1] == kept[|kept| - 1] != "";
    }
    if EmptyBeforeNonEmpty(all) {
      var i, j :| 0 <= i < j < |all| && all[i] == "" && all[j] != "";
      assert j < |kept|;
      assert kept[i] == "";
    }
  }

  /** An empty piece comes before a non-empty one: the empty extension
      survives the dropping of trailing empty pieces. */
  predicate EmptyBeforeNonEmpty(pieces: seq<string>)
  {
    exists i, j :: 0 <= i < j < |pieces| && pieces[i] == "" && pieces[j] != ""
  }

  /** The as-written comparison: an extension never holds a dot, every default
      entry starts with one, so with the defaults no file is ever excluded. */
  lemma DefaultsExcludeNothing(name: string)
    ensures GetExtension(name) !in ExcludeExtensions(None)
  {
    DefaultsDotted();
    DottedExcludeNothing(name, ExcludeExtensions(None));
  }

  /** Every entry of the default exclusion set starts with a dot. */
  lemma DefaultsDotted()
    ensures Dotted(ExcludeExtensions(None))
  {
    DefaultPieces();
    DefaultsAreDotted();
  }

  /** Every entry starts with a dot. */
  predicate Dotted(excluded: set<string>)
  {
    forall x :: x in excluded ==> |x| > 0 && x[0] == '.'
  }

  /** No extension is in a set whose entries all start with a dot. */
  lemma DottedExcludeNothing(name: string, excluded: set<string>)
    requires Dotted(excluded)
    ensures GetExtension(name) !in excluded
  {
  }
}
