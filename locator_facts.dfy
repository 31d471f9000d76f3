/** What the resolution promises, stated against the filesystem it observes. */
module LocatorFacts {
  import opened Wrappers
  import opened PyText
  import opened Versions
  import opened Filters
  import opened Locator
  import opened ScanFacts

  /** Resolution got as far as a table: `t` is the entry the code takes as `table_dirs[0]`. */
  predicate Discovers(fs: FsView, t: string)
  {
    && fs.mountExists
    && fs.baseDirExists
    && fs.baseDir.Entries?
    && TableDirs(fs.baseDir.names) != []
    && TableDirs(fs.baseDir.names)[0] == t
  }

  /**
   * The table taken is the first entry, in listing order, whose name contains
   * `ecommerce-orders`; any later matching entries are ignored.
   */
  lemma DiscoveryIsFirstMatch(fs: FsView, t: string)
    requires fs.mountExists && fs.baseDirExists && fs.baseDir.Entries?
    ensures Discovers(fs, t) <==> exists i :: IsFirstMatch(fs.baseDir.names, t, i)
  {
    var names := fs.baseDir.names;
    FilterHead(names, IsTableDir);
    forall i | IsFirstMatch(names, t, i) ensures Discovers(fs, t) {
      var k :| 0 <= k < |names| && names[k] == TableDirs(names)[0] && IsTableDir(names[k]) &&
        forall j :: 0 <= j < k ==> !IsTableDir(names[j]);
      FirstMatchUnique(names, i, k);
    }
    if Discovers(fs, t) {
      var k :| 0 <= k < |names| && names[k] == TableDirs(names)[0] && IsTableDir(names[k]) &&
        forall j :: 0 <= j < k ==> !IsTableDir(names[j]);
      assert IsFirstMatch(names, t, k);
    }
  }

  /** `names[i]` is `t`, contains the marker, and no earlier entry does. */
  predicate IsFirstMatch(names: seq<string>, t: string, i: int)
  {
    0 <= i < |names| && names[i] == t && IsTableDir(t) &&
    forall j :: 0 <= j < i ==> !IsTableDir(names[j])
  }

  lemma FirstMatchUnique(names: seq<string>, i: nat, k: nat)
    requires i < |names| && k < |names| && IsTableDir(names[i]) && IsTableDir(names[k])
    requires forall j :: 0 <= j < i ==> !IsTableDir(names[j])
    requires forall j :: 0 <= j < k ==> !IsTableDir(names[j])
    ensures i == k
  {
  }

  /** An existing base directory that cannot be listed aborts the resolution. */
  lemma BaseDirUnlistableFails(fs: FsView)
    requires fs.mountExists && fs.baseDirExists && fs.baseDir == Unlistable
    ensures Resolve(fs) == Err(BaseDirUnlistable)
  {
  }

  /** The hint file never competes in the scan: it does not end in `.metadata.json`. */
  lemma HintFileIsNoCandidate()
    ensures !IsMetadataFile(HintFileName)
  {
    var h := HintFileName;
    assert h[|h| - |MetadataSuffix|..][0] == 's' != MetadataSuffix[0];
  }

  /**
   * A resolved path other than the default is the discovered table's metadata
   * directory, a `/`, and text that starts with `v` and ends with
   * `.metadata.json`, whichever tier produced it.
   */
  lemma ResolvedPathInTable(fs: FsView)
    requires Resolve(fs).Ok? && Resolve(fs).value != DefaultMetadataPath
    ensures exists t ::
              && Discovers(fs, t)
              && StartsWith(Resolve(fs).value, MetadataDirOf(t) + "/")
              && IsMetadataFile(Resolve(fs).value[|MetadataDirOf(t)| + 1..])
  {
    var t := TableDirs(fs.baseDir.names)[0];
    assert Discovers(fs, t);
    ResolveDiscovered(fs, t);
  }

  /** Once a table is discovered, what follows depends only on that table's directory. */
  lemma ResolveDiscovered(fs: FsView, t: string)
    requires Discovers(fs, t)
    ensures Resolve(fs) == TableResult(MetadataDirOf(t), fs.TableAt(t))
  {
  }

  /**
   * The default path stays in force when `/tableflow` is missing, when the
   * base directory is missing, when no entry names the table, and when the
   * scan finds no candidate file.
   */
  lemma DefaultKept(fs: FsView)
    ensures !fs.mountExists ==> Resolve(fs) == Ok(DefaultMetadataPath)
    ensures !fs.baseDirExists ==> Resolve(fs) == Ok(DefaultMetadataPath)
    ensures fs.baseDir.Entries? && (forall d :: d in fs.baseDir.names ==> !IsTableDir(d)) ==>
      Resolve(fs) == Ok(DefaultMetadataPath)
    ensures forall t, files ::
              (Discovers(fs, t) && fs.TableAt(t) == TableState(NoHint, Entries(files)) &&
               forall f :: f in files ==> !IsMetadataFile(f))
              ==> Resolve(fs) == Ok(DefaultMetadataPath)
  {
    if fs.baseDir.Entries? {
      FilterHead(fs.baseDir.names, IsTableDir);
    }
    forall t, files | Discovers(fs, t) && fs.TableAt(t) == TableState(NoHint, Entries(files)) &&
      (forall f :: f in files ==> !IsMetadataFile(f))
      ensures Resolve(fs) == Ok(DefaultMetadataPath)
    {
      ResolveDiscovered(fs, t);
      ScanChoiceNone(files);
    }
  }

  /**
   * With a hint file present, the path is the metadata directory joined with
   * `v`, the stripped hint text and `.metadata.json`, whatever the directory
   * holds; the text is not checked to be a number.
   */
  lemma HintTierPath(fs: FsView, t: string, text: string)
    requires Discovers(fs, t) && fs.TableAt(t).hint == Hint(text)
    ensures Resolve(fs) == Ok(BaseDir + "/" + t + "/metadata" + "/v" + Strip(text) + ".metadata.json")
  {
    assert MetadataDirOf(t) + "/" + ("v" + Strip(text) + ".metadata.json") ==
      BaseDir + "/" + t + "/metadata" + "/v" + Strip(text) + ".metadata.json";
  }

  /** The listing of the metadata directory plays no part once a hint exists. */
  lemma HintTierIgnoresListing(fs: FsView, t: string, text: string, listing: Listing)
    requires Discovers(fs, t) && fs.TableAt(t).hint == Hint(text)
    ensures Resolve(fs.(tables := fs.tables[t := TableState(Hint(text), listing)])) == Resolve(fs)
  {
    var fs' := fs.(tables := fs.tables[t := TableState(Hint(text), listing)]);
    assert Discovers(fs', t);
    assert fs'.TableAt(t).hint == Hint(text);
  }

  /**
   * Only the surrounding whitespace of the hint is dropped: the text inside,
   * digits or not, inner blanks included, appears verbatim in the path.
   */
  lemma HintKeptVerbatim(fs: FsView, t: string, pre: string, v: string, post: string)
    requires Discovers(fs, t) && fs.TableAt(t).hint == Hint(pre + v + post)
    requires AllSpace(pre) && AllSpace(post)
    requires v != [] ==> !IsSpace(v[0]) && !IsSpace(v[|v| - 1])
    ensures Resolve(fs) == Ok(Join(MetadataDirOf(t), "v" + v + ".metadata.json"))
  {
    ResolveDiscovered(fs, t);
    StripPadded(pre, v, post);
  }

  /**
   * A hint file that exists but cannot be read aborts the resolution; the
   * scan tier is not tried in its place.
   */
  lemma UnreadableHintFails(fs: FsView, t: string, listing: Listing)
    requires Discovers(fs, t) && fs.TableAt(t).hint == UnreadableHint
    ensures Resolve(fs) == Err(HintUnreadable)
    ensures Resolve(fs.(tables := fs.tables[t := TableState(UnreadableHint, listing)])) == Err(HintUnreadable)
  {
    var fs' := fs.(tables := fs.tables[t := TableState(UnreadableHint, listing)]);
    assert Discovers(fs', t);
  }

  /**
   * Without a hint, a metadata directory that cannot be listed (in particular
   * one that does not exist) aborts the resolution.
   */
  lemma MissingMetadataDirFails(fs: FsView, t: string)
    requires Discovers(fs, t) && fs.TableAt(t).hint == NoHint
    requires t !in fs.tables || fs.tables[t].metadata == Unlistable
    ensures Resolve(fs) == Err(MetadataDirUnlistable)
  {
  }

  /**
   * Without a hint, the resolution fails exactly when some candidate's
   * version segment is not an integer, and then it names such a candidate.
   */
  lemma ScanTierFailsOnBadVersion(fs: FsView, t: string, files: seq<string>)
    requires Discovers(fs, t) && fs.TableAt(t) == TableState(NoHint, Entries(files))
    ensures Resolve(fs).Err? <==> exists f :: f in files && IsMetadataFile(f) && VersionKey(f).None?
    ensures Resolve(fs).Err? ==>
      exists f :: f in files && IsMetadataFile(f) && VersionKey(f).None? && Resolve(fs).error == VersionNotInteger(f)
  {
    ResolveDiscovered(fs, t);
    ScanChoiceFails(files);
  }

  /**
   * Without a hint, a resolved path other than the default names a listed
   * `v...metadata.json` file in the table's metadata directory, and no
   * candidate has a higher version.
   */
  lemma ScanTierPicksMaximal(fs: FsView, t: string, files: seq<string>)
    requires Discovers(fs, t) && fs.TableAt(t) == TableState(NoHint, Entries(files))
    requires exists f :: f in files && IsMetadataFile(f)
    requires Resolve(fs).Ok?
    ensures exists f :: MaximalCandidate(files, f) && Resolve(fs).value == Join(MetadataDirOf(t), f)
  {
    ResolveDiscovered(fs, t);
    assert Resolve(fs) == ScanResult(MetadataDirOf(t), files);
    var f :| f in files && IsMetadataFile(f);
    assert ScanChoice(files).value.Some? by {
      ScanChoiceNone(files);
    }
    var chosen := ScanChoice(files).value.value;
    ScanChoiceMaximal(files, chosen);
    assert MaximalCandidate(files, chosen) && Resolve(fs).value == Join(MetadataDirOf(t), chosen);
  }
}
