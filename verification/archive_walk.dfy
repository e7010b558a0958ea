/** What one archive job writes: the directory walk of the path being
    compressed, filtered by kind and extension, turned into archive entry
    names relative to that path (`FilesCompresor.doCompress`). The tar and
    bzip2 byte encodings are not modelled; an archive is its ordered list of
    entry names. */
module ArchiveWalk {
  import opened Wrappers
  import opened Paths
  import opened Exclusions

  /** One item of `Files.walk`: a path and whether `Files.isDirectory` holds. */
  datatype WalkItem = WalkItem(path: Path, isDirectory: bool)

  /** Every walked path has a file name, as the filter asks for one. */
  predicate Named(walk: seq<WalkItem>)
  {
    forall x :: x in walk ==> |x.path| > 0
  }

  /** The filter lambda: a directory is kept unless it is the root being
      compressed; any other item is kept unless its extension is excluded. */
  predicate Keep(root: Path, excluded: set<string>, x: WalkItem)
    requires |x.path| > 0
  {
    if x.isDirectory then x.path != root
    else GetExtension(FileName(x.path)) !in excluded
  }

  /** `a` is `b` with some items left out, the rest in the same order. */
  predicate IsSubsequence<T(==)>(a: seq<T>, b: seq<T>)
  {
    if |a| == 0 then true
    else if |b| == 0 then false
    else if a[|a| - 1] == b[|b| - 1] then IsSubsequence(a[..|a| - 1], b[..|b| - 1])
    else IsSubsequence(a, b[..|b| - 1])
  }

  /** `walk.filter(...)`: the walk with the items the filter rejects left out. */
  function FilterWalk(root: Path, excluded: set<string>, walk: seq<WalkItem>): (r: seq<WalkItem>)
    requires Named(walk)
    ensures forall x :: x in r <==> x in walk && Keep(root, excluded, x)
    ensures IsSubsequence(r, walk)
  {
    if |walk| == 0 then []
    else
      var init := walk[..|walk| - 1];
      var last := walk[|walk| - 1];
      assert walk == init + [last];
      assert forall x :: x in init ==> x in walk;
      var r0 := FilterWalk(root, excluded, init);
      if Keep(root, excluded, last) then
        var r := r0 + [last];
        assert r[..|r| - 1] == r0;
        r
      else r0
  }

  /** Filtering a walk one item longer. */
  lemma FilterWalkSnoc(root: Path, excluded: set<string>, walk: seq<WalkItem>, x: WalkItem)
    requires Named(walk) && |x.path| > 0
    ensures Named(walk + [x])
    ensures FilterWalk(root, excluded, walk + [x])
      == FilterWalk(root, excluded, walk) + (if Keep(root, excluded, x) then [x] else [])
  {
    assert (walk + [x])[..|walk|] == walk;
  }

  /** The filter sorts the walk by kind: the root directory is dropped,
      every other directory is kept whatever its name, and a file is kept
      exactly when its extension is not excluded. */
  lemma FilterByKind(root: Path, excluded: set<string>, walk: seq<WalkItem>, x: WalkItem)
    requires Named(walk) && x in walk
    ensures x.isDirectory && x.path == root ==> x !in FilterWalk(root, excluded, walk)
    ensures x.isDirectory && x.path != root ==> x in FilterWalk(root, excluded, walk)
    ensures !x.isDirectory ==>
      (x in FilterWalk(root, excluded, walk) <==> GetExtension(FileName(x.path)) !in excluded)
  {
  }

  /** The walk stays below the path being compressed. */
  predicate UnderRoot(root: Path, walk: seq<WalkItem>)
  {
    forall x :: x in walk ==> IsPrefix(root, x.path) && |x.path| > 0
  }

  /** The entry names: each walked path relativized against the root. */
  function EntryNames(root: Path, items: seq<WalkItem>): (r: seq<Path>)
    requires UnderRoot(root, items)
    ensures |r| == |items|
    ensures forall i :: 0 <= i < |items| ==> root + r[i] == items[i].path
  {
    seq(|items|, i requires 0 <= i < |items| => Relativize(root, items[i].path))
  }

  /** The archive one job writes: the entry names of the filtered walk, in
      walk order. */
  function Archive(root: Path, excluded: set<string>, walk: seq<WalkItem>): seq<Path>
    requires UnderRoot(root, walk)
  {
    EntryNames(root, FilterWalk(root, excluded, walk))
  }

  /** `Files.walk` starts at the root; every later item lies strictly below it. */
  predicate WalkedFrom(root: Path, walk: seq<WalkItem>)
  {
    && UnderRoot(root, walk)
    && |walk| > 0 && walk[0].path == root
    && forall i :: 1 <= i < |walk| ==> |walk[i].path| > |root|
  }

  /** When the root is a directory the archive holds no entry for it: every
      entry name is non-empty, and the root followed by the entry name is a
      walked item. */
  lemma RootNeverArchived(root: Path, excluded: set<string>, walk: seq<WalkItem>)
    requires WalkedFrom(root, walk) && walk[0].isDirectory
    ensures forall e :: e in Archive(root, excluded, walk) ==> |e| > 0
    ensures forall e :: e in Archive(root, excluded, walk) ==> exists x :: x in walk && x.path == root + e
  {
    var kept := FilterWalk(root, excluded, walk);
    var names := Archive(root, excluded, walk);
    forall e | e in names
      ensures |e| > 0 && exists x :: x in walk && x.path == root + e
    {
      var i :| 0 <= i < |names| && names[i] == e;
      KeptBelowRoot(root, excluded, walk, kept[i]);
      assert root + e == kept[i].path;
    }
  }

  /** An item of a walk whose root is a directory that the filter accepts
      lies strictly below the root. */
  lemma KeptBelowRoot(root: Path, excluded: set<string>, walk: seq<WalkItem>, x: WalkItem)
    requires WalkedFrom(root, walk) && walk[0].isDirectory
    requires x in walk && Keep(root, excluded, x)
    ensures |x.path| > |root|
  {
    var j :| 0 <= j < |walk| && walk[j] == x;
    assert j != 0;
  }

  /** With the default configuration every file is archived, whatever its
      extension; only the root directory is left out. */
  lemma DefaultsArchiveAllFiles(root: Path, walk: seq<WalkItem>, x: WalkItem)
    requires Named(walk) && x in walk && !(x.isDirectory && x.path == root)
    ensures x in FilterWalk(root, ExcludeExtensions(None), walk)
  {
    DefaultsExcludeNothing(FileName(x.path));
  }

  /** A directory holding `a.txt`, `b.bin` and `sub/c.exe`, walked
      depth-first. */
  function SampleWalk(root: Path): seq<WalkItem>
  {
    [ WalkItem(root, true),
      WalkItem(root + ["a.txt"], false),
      WalkItem(root + ["b.bin"], false),
      WalkItem(root + ["sub"], true),
      WalkItem(root + ["sub", "c.exe"], false) ]
  }

  /** Every walked item the filter keeps is in the archive under its path
      relative to the root, and every entry comes from such an item. */
  lemma ArchivedIffKept(root: Path, excluded: set<string>, walk: seq<WalkItem>, x: WalkItem)
    requires UnderRoot(root, walk) && x in walk
    ensures Keep(root, excluded, x) ==> Relativize(root, x.path) in Archive(root, excluded, walk)
    ensures forall e :: e in Archive(root, excluded, walk) ==>
      exists y :: y in walk && Keep(root, excluded, y) && y.path == root + e
  {
    var kept := FilterWalk(root, excluded, walk);
    var names := Archive(root, excluded, walk);
    if Keep(root, excluded, x) {
      var i :| 0 <= i < |kept| && kept[i] == x;
      assert names[i] == Relativize(root, x.path);
    }
    forall e | e in names
      ensures exists y :: y in walk && Keep(root, excluded, y) && y.path == root + e
    {
      var i :| 0 <= i < |names| && names[i] == e;
      assert kept[i] in kept;
    }
  }

  /** The sample tree's paths lie below the root, with the entry names
      `a.txt` and `sub/c.exe` for its two files. */
  lemma SampleWalkUnderRoot(root: Path)
    requires |root| > 0
    ensures UnderRoot(root, SampleWalk(root))
    ensures Relativize(root, SampleWalk(root)[1].path) == ["a.txt"]
    ensures Relativize(root, SampleWalk(root)[4].path) == ["sub", "c.exe"]
  {
    var walk := SampleWalk(root);
    var rel := [[], ["a.txt"], ["b.bin"], ["sub"], ["sub", "c.exe"]];
    forall i | 0 <= i < 5
      ensures IsPrefix(root, walk[i].path) && Relativize(root, walk[i].path) == rel[i]
    {
      assert walk[i].path == root + rel[i];
      RelativizeResolves(root, rel[i]);
    }
  }

  /** Under any exclusion list whose entries all start with a dot, as the
      default's do, the sample tree's `a.txt` and `sub/c.exe` are archived
      like any other file. */
  lemma DottedKeepSampleTree(root: Path, excluded: set<string>)
    requires |root| > 0 && Dotted(excluded)
    ensures UnderRoot(root, SampleWalk(root))
    ensures ["a.txt"] in Archive(root, excluded, SampleWalk(root))
    ensures ["sub", "c.exe"] in Archive(root, excluded, SampleWalk(root))
  {
    var walk := SampleWalk(root);
    SampleWalkUnderRoot(root);
    DottedExcludeNothing("a.txt", excluded);
    DottedExcludeNothing("c.exe", excluded);
    ArchivedIffKept(root, excluded, walk, walk[1]);
    ArchivedIffKept(root, excluded, walk, walk[4]);
  }

  /** The default configuration archives the sample tree's `.txt` and `.exe`
      files. */
  lemma DefaultsKeepSampleTree(root: Path)
    requires |root| > 0
    ensures UnderRoot(root, SampleWalk(root))
    ensures ["a.txt"] in Archive(root, ExcludeExtensions(None), SampleWalk(root))
    ensures ["sub", "c.exe"] in Archive(root, ExcludeExtensions(None), SampleWalk(root))
  {
    DefaultsDotted();
    DottedKeepSampleTree(root, ExcludeExtensions(None));
  }

  /** Naming one more kept item appends its relative path. */
  lemma EntryNamesSnoc(root: Path, items: seq<WalkItem>, x: WalkItem)
    requires UnderRoot(root, items) && IsPrefix(root, x.path) && |x.path| > 0
    ensures UnderRoot(root, items + [x])
    ensures EntryNames(root, items + [x]) == EntryNames(root, items) + [Relativize(root, x.path)]
  {
  }

  /** The archive of a walk one item longer. */
  lemma ArchiveSnoc(root: Path, excluded: set<string>, walk: seq<WalkItem>, x: WalkItem)
    requires UnderRoot(root, walk) && IsPrefix(root, x.path) && |x.path| > 0
    ensures UnderRoot(root, walk + [x])
    ensures Archive(root, excluded, walk + [x])
      == Archive(root, excluded, walk) + (if Keep(root, excluded, x) then [Relativize(root, x.path)] else [])
  {
    FilterWalkSnoc(root, excluded, walk, x);
    if Keep(root, excluded, x) {
      EntryNamesSnoc(root, FilterWalk(root, excluded, walk), x);
    }
  }

  /** `forEach` over the filtered walk: the archive entries are written one
      walked item at a time, in walk order. */
  method BuildEntries(root: Path, excluded: set<string>, walk: seq<WalkItem>) returns (entries: seq<Path>)
    requires UnderRoot(root, walk)
    ensures entries == Archive(root, excluded, walk)
  {
    entries := [];
    var i := 0;
    while i < |walk|
      invariant 0 <= i <= |walk|
      invariant UnderRoot(root, walk[..i])
      invariant entries == Archive(root, excluded, walk[..i])
    {
      var x := walk[i];
      assert walk[..i] + [x] == walk[..i + 1];
      ArchiveSnoc(root, excluded, walk[..i], x);
      if Keep(root, excluded, x) {
        entries := entries + [Relativize(root, x.path)];
      }
      i := i + 1;
    }
    assert walk[..i] == walk;
  }
}
