/** What the scan tier's choice is, stated against the directory listing it is made from. */
module ScanFacts {
  import opened Wrappers
  import opened Versions
  import opened Filters
  import opened Selection
  import opened Locator

  /** The scan keeps the default exactly when no entry is a `v...metadata.json` file. */
  lemma ScanChoiceNone(files: seq<string>)
    ensures ScanChoice(files) == Ok(None) <==> forall f :: f in files ==> !IsMetadataFile(f)
  {
    var meta := MetaFiles(files);
    if meta != [] {
      assert meta[0] in meta;
    }
  }

  /**
   * The scan fails exactly when some candidate's version segment is not an
   * integer: such a file aborts the resolution instead of being skipped. The
   * error names a candidate whose key does not parse.
   */
  lemma ScanChoiceFails(files: seq<string>)
    ensures ScanChoice(files).Err? <==>
      exists f :: f in files && IsMetadataFile(f) && VersionKey(f).None?
    ensures ScanChoice(files).Err? ==>
      ScanChoice(files).error.VersionNotInteger? &&
      ScanChoice(files).error.name in files &&
      IsMetadataFile(ScanChoice(files).error.name) &&
      VersionKey(ScanChoice(files).error.name).None?
  {
    var meta := MetaFiles(files);
    if meta != [] {
      VersionKeysSpec(meta, VersionKey);
      var keyed := VersionKeys(meta, VersionKey);
      if keyed.Ok? {
        forall f | f in files && IsMetadataFile(f) ensures VersionKey(f).Some? {
          assert f in meta;
          var i :| 0 <= i < |meta| && meta[i] == f;
        }
      } else {
        assert keyed.error in meta;
      }
    }
  }

  /**
   * A chosen file is one of the listed entries, starts with `v`, ends with
   * `.metadata.json` and has a version key; and every candidate's version is
   * at most the chosen one's, whatever the order of the listing.
   */
  lemma ScanChoiceMaximal(files: seq<string>, chosen: string)
    requires ScanChoice(files) == Ok(Some(chosen))
    ensures chosen in files && IsMetadataFile(chosen)
    ensures VersionKey(chosen).Some?
    ensures forall f :: f in files && IsMetadataFile(f) ==>
      VersionKey(f).Some? && VersionKey(f).value <= VersionKey(chosen).value
  {
    var meta := MetaFiles(files);
    VersionKeysSpec(meta, VersionKey);
    var cands := VersionKeys(meta, VersionKey).value;
    var k := LastMaxIndex(cands);
    assert cands[k] == Candidate(meta[k], VersionKey(meta[k]).value);
    assert meta[k] in meta;
    forall i | 0 <= i < |meta|
      ensures VersionKey(meta[i]).Some? && VersionKey(meta[i]).value <= VersionKey(chosen).value
    {
      assert cands[i].version <= cands[k].version;
    }
  }

  /** `f` is a listed candidate whose version no other candidate exceeds. */
  predicate MaximalCandidate(files: seq<string>, f: string)
  {
    && f in files && IsMetadataFile(f) && VersionKey(f).Some?
    && forall g :: g in files && IsMetadataFile(g) ==>
         VersionKey(g).Some? && VersionKey(g).value <= VersionKey(f).value
  }

  /**
   * Among candidates of equal, maximal version the one listed last is chosen:
   * every candidate listed after the chosen one has a strictly smaller version.
   * This is what taking `[-1]` of a stable sort yields.
   */
  lemma ScanChoiceLatestAmongTies(files: seq<string>, chosen: string)
    requires ScanChoice(files) == Ok(Some(chosen))
    ensures VersionKey(chosen).Some?
    ensures exists i ::
              && 0 <= i < |MetaFiles(files)|
              && MetaFiles(files)[i] == chosen
              && OnlySmallerAfter(MetaFiles(files), i, VersionKey(chosen).value)
  {
    var meta := MetaFiles(files);
    VersionKeysSpec(meta, VersionKey);
    var cands := VersionKeys(meta, VersionKey).value;
    var k := LastMaxIndex(cands);
    assert meta[k] == chosen;
    forall j | k < j < |meta|
      ensures VersionKey(meta[j]).Some? && VersionKey(meta[j]).value < VersionKey(chosen).value
    {
      assert cands[j].version < cands[k].version;
    }
    assert OnlySmallerAfter(meta, k, VersionKey(chosen).value);
  }

  /**
   * The tie rule stated against the directory listing itself: the chosen
   * name is listed at a position after which every `v...metadata.json` entry
   * has a strictly smaller version (`OnlySmallerAfter`).
   */
  lemma {:induction false} ScanChoiceLatestInListing(files: seq<string>, chosen: string)
    requires ScanChoice(files) == Ok(Some(chosen))
    ensures VersionKey(chosen).Some?
    ensures exists i ::
              && 0 <= i < |files|
              && files[i] == chosen
              && OnlySmallerAfter(files, i, VersionKey(chosen).value)
  {
    var meta := MetaFiles(files);
    ScanChoiceLatestAmongTies(files, chosen);
    var k :| && 0 <= k < |meta|
             && meta[k] == chosen
             && OnlySmallerAfter(meta, k, VersionKey(chosen).value);
    CandidatePositionInListing(files, k);
  }

  /**
   * A candidate after which only smaller versions follow among the candidates
   * is listed at a position after which only smaller versions follow among
   * all entries.
   */
  lemma CandidatePositionInListing(files: seq<string>, k: nat)
    requires k < |MetaFiles(files)| && VersionKey(MetaFiles(files)[k]).Some?
    requires OnlySmallerAfter(MetaFiles(files), k, VersionKey(MetaFiles(files)[k]).value)
    ensures exists i ::
              && 0 <= i < |files|
              && files[i] == MetaFiles(files)[k]
              && OnlySmallerAfter(files, i, VersionKey(MetaFiles(files)[k]).value)
  {
    var meta := MetaFiles(files);
    var v := VersionKey(meta[k]).value;
    var smaller := (x: string) => VersionKey(x).Some? && VersionKey(x).value < v;
    forall j | k < j < |meta| ensures smaller(meta[j]) {
      assert meta[j] in meta;
    }
    FilterLaterElements(files, IsMetadataFile, k, smaller);
    var i :| && 0 <= i < |files|
             && files[i] == meta[k]
             && (forall j :: i < j < |files| && IsMetadataFile(files[j]) ==> smaller(files[j]));
    assert OnlySmallerAfter(files, i, v);
  }

  /** Every `v...metadata.json` entry listed after position `i` has a version below `v`. */
  predicate OnlySmallerAfter(files: seq<string>, i: nat, v: nat)
  {
    forall j :: i < j < |files| && IsMetadataFile(files[j]) ==>
      VersionKey(files[j]).Some? && VersionKey(files[j]).value < v
  }

  /**
   * Reordering (or repeating) the entries of the metadata directory changes
   * neither whether the scan fails, nor whether it finds a candidate, nor the
   * version it picks.
   */
  lemma ScanChoiceOrderIndependent(files1: seq<string>, files2: seq<string>)
    requires forall f :: f in files1 <==> f in files2
    ensures ScanChoice(files1).Err? <==> ScanChoice(files2).Err?
    ensures ScanChoice(files1) == Ok(None) <==> ScanChoice(files2) == Ok(None)
    ensures ScanChoice(files1).Ok? && ScanChoice(files1).value.Some? &&
            ScanChoice(files2).Ok? && ScanChoice(files2).value.Some? ==>
              VersionKey(ScanChoice(files1).value.value) == VersionKey(ScanChoice(files2).value.value)
  {
    var r1, r2 := ScanChoice(files1), ScanChoice(files2);
    assert r1 == Ok(None) <==> r2 == Ok(None) by {
      ScanChoiceNone(files1);
      ScanChoiceNone(files2);
    }
    assert r1.Err? <==> r2.Err? by {
      ScanChoiceFails(files1);
      ScanChoiceFails(files2);
    }
    if r1.Ok? && r1.value.Some? && r2.Ok? && r2.value.Some? {
      var c1, c2 := r1.value.value, r2.value.value;
      ScanChoiceMaximal(files1, c1);
      ScanChoiceMaximal(files2, c2);
      assert c1 in files2 && c2 in files1;
      var k1, k2 := VersionKey(c1).value, VersionKey(c2).value;
      assert k1 <= k2 && k2 <= k1;
    }
  }

  /** `v<N>.metadata.json`, the name the table writer gives to version `N`. */
  function MetadataFileName(n: nat): string
  {
    "v" + Decimal(n) + ".metadata.json"
  }

  /** `v0<N>.metadata.json`: the same version spelled with a leading zero. */
  function PaddedFileName(n: nat): string
  {
    "v0" + Decimal(n) + ".metadata.json"
  }

  /** A written version name is a scan candidate, and its key is the version written. */
  lemma MetadataFileNameKey(n: nat)
    ensures IsMetadataFile(MetadataFileName(n))
    ensures VersionKey(MetadataFileName(n)) == Some(n)
  {
    var name := MetadataFileName(n);
    assert name == ['v'] + Decimal(n) + "." + "metadata.json";
    KeyOfDecimal(n, "metadata.json");
    assert name[..1] == "v";
    assert name[|name| - |MetadataSuffix|..] == MetadataSuffix;
  }

  /** The zero-padded spelling is a candidate too, with the same key. */
  lemma PaddedFileNameKey(n: nat)
    ensures IsMetadataFile(PaddedFileName(n))
    ensures VersionKey(PaddedFileName(n)) == Some(n)
  {
    var name := PaddedFileName(n);
    assert name == ['v'] + ("0" + Decimal(n)) + "." + "metadata.json";
    KeyOfZeroPadded(n, "metadata.json");
    assert name[..1] == "v";
    assert name[|name| - |MetadataSuffix|..] == MetadataSuffix;
  }

  /**
   * Listed in the order `v<a>`, `v<b>`, `v<c>` with `b` the highest version,
   * `v<b>.metadata.json` is chosen: the position in the listing does not matter.
   */
  lemma HighestOfThreeWins(a: nat, b: nat, c: nat)
    requires a < b && c < b
    ensures ScanChoice([MetadataFileName(a), MetadataFileName(b), MetadataFileName(c)]) ==
      Ok(Some(MetadataFileName(b)))
  {
    var files := [MetadataFileName(a), MetadataFileName(b), MetadataFileName(c)];
    MetadataFileNameKey(b);
    assert files[1] in files;
    forall f | f in files && IsMetadataFile(f) && f != files[1]
      ensures VersionKey(f).Some? && VersionKey(f).value < VersionKey(files[1]).value
    {
      if f == files[0] {
        MetadataFileNameKey(a);
      } else {
        MetadataFileNameKey(c);
      }
    }
    UniqueMaximumWins(files, files[1]);
  }

  /** With `v1`, `v3`, `v2` listed in that order, `v3.metadata.json` is chosen. */
  lemma ExampleHighestVersionWins()
    ensures ScanChoice([MetadataFileName(1), MetadataFileName(3), MetadataFileName(2)]) ==
      Ok(Some(MetadataFileName(3)))
  {
    HighestOfThreeWins(1, 3, 2);
  }

  /** When some entry is a candidate and every candidate has a key, the scan chooses a file. */
  lemma ScanChoiceChooses(files: seq<string>, f: string)
    requires f in files && IsMetadataFile(f)
    requires forall g :: g in files && IsMetadataFile(g) ==> VersionKey(g).Some?
    ensures ScanChoice(files).Ok? && ScanChoice(files).value.Some?
  {
    ScanChoiceFails(files);
    ScanChoiceNone(files);
  }

  /** A candidate whose version is strictly greater than every other candidate's is chosen. */
  lemma UniqueMaximumWins(files: seq<string>, top: string)
    requires top in files && IsMetadataFile(top) && VersionKey(top).Some?
    requires forall f :: f in files && IsMetadataFile(f) && f != top ==>
      VersionKey(f).Some? && VersionKey(f).value < VersionKey(top).value
    ensures ScanChoice(files) == Ok(Some(top))
  {
    ScanChoiceChooses(files, top);
    var chosen := ScanChoice(files).value.value;
    ScanChoiceMaximal(files, chosen);
  }

  /**
   * `v<N>.metadata.json` and `v0<N>.metadata.json` both have version `N`; the
   * one listed later wins, in either order.
   */
  lemma TieGoesToLaterListed(n: nat)
    ensures ScanChoice([MetadataFileName(n), PaddedFileName(n)]) == Ok(Some(PaddedFileName(n)))
    ensures ScanChoice([PaddedFileName(n), MetadataFileName(n)]) == Ok(Some(MetadataFileName(n)))
  {
    MetadataFileNameKey(n);
    PaddedFileNameKey(n);
    LaterOfTwoTiedWins(MetadataFileName(n), PaddedFileName(n));
    LaterOfTwoTiedWins(PaddedFileName(n), MetadataFileName(n));
  }

  lemma MetaFilesOfTwo(first: string, second: string)
    requires IsMetadataFile(first) && IsMetadataFile(second)
    ensures MetaFiles([first, second]) == [first, second]
  {
    FilterAppend([], first, IsMetadataFile);
    FilterAppend([first], second, IsMetadataFile);
    assert [] + [first] == [first] && [first] + [second] == [first, second];
  }

  /** Of two candidates with the same version, the second one listed is chosen. */
  lemma LaterOfTwoTiedWins(first: string, second: string)
    requires IsMetadataFile(first) && IsMetadataFile(second)
    requires VersionKey(first).Some? && VersionKey(first) == VersionKey(second)
    ensures ScanChoice([first, second]) == Ok(Some(second))
  {
    var files := [first, second];
    assert first in files;
    ScanChoiceChooses(files, first);
    TiedPairChoice(first, second, ScanChoice(files).value.value);
  }

  lemma TiedPairChoice(first: string, second: string, chosen: string)
    requires IsMetadataFile(first) && IsMetadataFile(second)
    requires VersionKey(first).Some? && VersionKey(first) == VersionKey(second)
    requires ScanChoice([first, second]) == Ok(Some(chosen))
    ensures chosen == second
  {
    var files := [first, second];
    MetaFilesOfTwo(first, second);
    ScanChoiceLatestAmongTies(files, chosen);
    var i :| 0 <= i < 2 && files[i] == chosen && OnlySmallerAfter(files, i, VersionKey(chosen).value);
    assert VersionKey(files[1]).value == VersionKey(files[0]).value;
    assert IsMetadataFile(files[1]);
    assert i == 1;
  }
}
