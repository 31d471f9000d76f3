/**
 * The metadata-file resolution that runs when the query script is loaded: it
 * starts from a fixed path and, when the mounted table tree is there, replaces
 * it by the path named by the table's version hint or, lacking a hint, by the
 * highest-versioned `v<N>.metadata.json` in the table's metadata directory.
 *
 * The filesystem is not accessed: what the code observes through
 * `os.path.exists`, `os.listdir` and reading the hint file is given as an
 * `FsView` value.
 */
module Locator {
  import opened Wrappers
  import opened PyText
  import opened Versions
  import opened Filters
  import opened Selection

  /** The path used unless resolution finds a better one. */
  const DefaultMetadataPath: string :=
    "/tmp/warpstream-tableflow-iceberg/warpstream/_tableflow/playground_kafka__ecommerce-orders-dbc3ed1c-d0f5-400a-8d86-2d86d95f6cb2/metadata/v10.metadata.json"
  /** The directory whose entries are searched for the table. */
  const BaseDir: string := "/tableflow/warpstream/_tableflow"
  const MetadataSubdir: string := "metadata"
  /** The file in the metadata directory whose text names the current version. */
  const HintFileName: string := "version-hint.text"

  /**
   * `os.path.join(dir, name)`. Every name joined here is either an entry
   * returned by `os.listdir`, which holds no `/`, or starts with `v`, so the
   * join is a plain concatenation with one separator.
   */
  function Join(dir: string, name: string): string
  {
    dir + "/" + name
  }

  /** What opening and reading `version-hint.text` gives. */
  datatype HintFile =
    | NoHint              // `os.path.exists` is false
    | Hint(text: string)  // the text `f.read()` returns
    | UnreadableHint      // the path exists but `open` or `read` raises

  /** What `os.listdir` gives for a directory. */
  datatype Listing =
    | Unlistable                 // missing, not a directory, or not readable: `os.listdir` raises
    | Entries(names: seq<string>) // the entries in the order `os.listdir` returns them

  /** What the code can observe inside one table directory. */
  datatype TableState = TableState(hint: HintFile, metadata: Listing)

  /**
   * The observable filesystem: whether the mount point `/tableflow` and the
   * base directory exist, the base directory's listing, and per entry of that listing the
   * state of `<entry>/metadata`.
   */
  datatype FsView = FsView(
    mountExists: bool,
    baseDirExists: bool,
    baseDir: Listing,
    tables: map<string, TableState>)
  {
    /** An entry without a recorded state has no metadata directory at all. */
    function TableAt(entry: string): TableState
    {
      if entry in tables then tables[entry] else TableState(NoHint, Unlistable)
    }
  }

  /** The exceptions that escape the resolution and abort the script. */
  datatype ResolveError =
    | BaseDirUnlistable             // `os.listdir(base_dir)` raises
    | HintUnreadable                // `open(version_hint_path)` or `read()` raises
    | MetadataDirUnlistable         // `os.listdir(metadata_dir)` raises
    | VersionNotInteger(name: string) // `int()` raises `ValueError` on this candidate's key

  /** `os.path.join(os.path.join(base_dir, entry), "metadata")`. */
  function MetadataDirOf(entry: string): string
  {
    Join(Join(BaseDir, entry), MetadataSubdir)
  }

  /**
   * The hint tier's path: the stripped hint text put verbatim between `v` and
   * `.metadata.json`. It is the metadata directory, a `/`, and then text that
   * starts with `v` and ends with `.metadata.json`; a hint holding `/` makes
   * that text reach into a subdirectory or out of the metadata directory.
   */
  function HintPath(metadataDir: string, text: string): (p: string)
    ensures StartsWith(p, metadataDir + "/")
    ensures IsMetadataFile(p[|metadataDir| + 1..])
  {
    var name := "v" + Strip(text) + ".metadata.json";
    assert Join(metadataDir, name)[|metadataDir| + 1..] == name;
    assert name[..|VersionPrefix|] == VersionPrefix;
    assert name[|name| - |MetadataSuffix|..] == MetadataSuffix;
    Join(metadataDir, name)
  }

  /**
   * The scan tier's choice among the metadata directory's entries: `None`
   * when no entry is a candidate, the failing name when a candidate's key does
   * not parse, and otherwise the name the sorted list ends with.
   */
  function ScanChoice(files: seq<string>): (r: Result<Option<string>, ResolveError>)
    ensures r.Ok? && r.value.Some? ==> r.value.value in files && IsMetadataFile(r.value.value)
    ensures r.Err? ==> r.error.VersionNotInteger? && r.error.name in files && IsMetadataFile(r.error.name)
  {
    var meta := MetaFiles(files);
    if meta == [] then Ok(None)
    else
      VersionKeysSpec(meta, VersionKey);
      match VersionKeys(meta, VersionKey)
      case Err(bad) => Err(VersionNotInteger(bad))
      case Ok(cands) => Ok(Some(cands[LastMaxIndex(cands)].name))
  }

  /**
   * The scan tier's outcome: the default path when there is no candidate,
   * otherwise the chosen file in the metadata directory, or the parse failure.
   * A path other than the default names a listed candidate of that directory.
   */
  function ScanResult(metadataDir: string, files: seq<string>): (r: Result<string, ResolveError>)
    ensures r.Ok? ==>
      || r.value == DefaultMetadataPath
      || (&& StartsWith(r.value, metadataDir + "/")
          && r.value[|metadataDir| + 1..] in files
          && IsMetadataFile(r.value[|metadataDir| + 1..]))
    ensures r.Err? ==> r.error.VersionNotInteger?
  {
    match ScanChoice(files)
    case Err(e) => Err(e)
    case Ok(None) => Ok(DefaultMetadataPath)
    case Ok(Some(name)) =>
      assert Join(metadataDir, name)[|metadataDir| + 1..] == name;
      Ok(Join(metadataDir, name))
  }

  /**
   * The two tiers inside the discovered table: the hint when it exists, else
   * the scan. Either way a path other than the default is the metadata
   * directory, a `/`, and text that starts with `v` and ends with
   * `.metadata.json`; a readable hint never fails,
   * and the hint error arises exactly when the hint cannot be read.
   */
  function TableResult(metadataDir: string, table: TableState): (r: Result<string, ResolveError>)
    ensures r.Ok? ==>
      || r.value == DefaultMetadataPath
      || (StartsWith(r.value, metadataDir + "/") && IsMetadataFile(r.value[|metadataDir| + 1..]))
    ensures table.hint.Hint? ==> r.Ok?
    ensures r == Err(HintUnreadable) <==> table.hint.UnreadableHint?
  {
    match table.hint
    case UnreadableHint => Err(HintUnreadable)
    case Hint(text) => Ok(HintPath(metadataDir, text))
    case NoHint =>
      match table.metadata
      case Unlistable => Err(MetadataDirUnlistable)
      case Entries(files) => ScanResult(metadataDir, files)
  }

  /**
   * The path the module-level code leaves in `METADATA_PATH`, or the
   * exception that stops it. Nothing can fail unless the mount point and the
   * base directory exist, and the base directory's error arises exactly when
   * its listing cannot be taken.
   */
  function Resolve(fs: FsView): (r: Result<string, ResolveError>)
    ensures r.Err? ==> fs.mountExists && fs.baseDirExists
    ensures r == Err(BaseDirUnlistable) <==>
      fs.mountExists && fs.baseDirExists && fs.baseDir.Unlistable?
  {
    if !fs.mountExists || !fs.baseDirExists then Ok(DefaultMetadataPath)
    else
      match fs.baseDir
      case Unlistable => Err(BaseDirUnlistable)
      case Entries(names) =>
        var tableDirs := TableDirs(names);
        if tableDirs == [] then Ok(DefaultMetadataPath)
        else TableResult(MetadataDirOf(tableDirs[0]), fs.TableAt(tableDirs[0]))
  }

  /**
   * The resolution as the script runs it: `METADATA_PATH` starts at the default
   * and is reassigned along the branches; in the scan tier the candidates are
   * sorted in place by version and the last one is taken.
   */
  method ResolveMetadataPath(fs: FsView) returns (r: Result<string, ResolveError>)
    ensures r == Resolve(fs)
  {
    var metadataPath := DefaultMetadataPath;
    if fs.mountExists {
      if fs.baseDirExists {
        if fs.baseDir.Unlistable? {
          return Err(BaseDirUnlistable);
        }
        var tableDirs := TableDirs(fs.baseDir.names);
        if tableDirs != [] {
          var tableDir := Join(BaseDir, tableDirs[0]);
          var metadataDir := Join(tableDir, MetadataSubdir);
          var table := fs.TableAt(tableDirs[0]);
          if !table.hint.NoHint? {
            if table.hint.UnreadableHint? {
              return Err(HintUnreadable);
            }
            var version := Strip(table.hint.text);
            metadataPath := Join(metadataDir, "v" + version + ".metadata.json");
          } else {
            if table.metadata.Unlistable? {
              return Err(MetadataDirUnlistable);
            }
            var metaFiles := MetaFiles(table.metadata.names);
            if metaFiles != [] {
              var keyed := VersionKeys(metaFiles, VersionKey);
              if keyed.Err? {
                return Err(VersionNotInteger(keyed.error));
              }
              var cands := keyed.value;
              var sorted := new Candidate[|cands|](i requires 0 <= i < |cands| => cands[i]);
              assert sorted[..] == cands;
              SortByVersion(sorted);
              metadataPath := Join(metadataDir, sorted[sorted.Length - 1].name);
            }
          }
        }
      }
    }
    return Ok(metadataPath);
  }
}
