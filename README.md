# Locating the Iceberg metadata file of the Tableflow orders table

The query script of the WarpStream Tableflow demo reads one Iceberg table with
PyIceberg. Before it can open the table it has to decide which
`vN.metadata.json` file to load. The default is a fixed path under `/tmp`. When
the Docker mount `/tableflow` exists, the script looks for a better one:

1. If the base directory `/tableflow/warpstream/_tableflow` exists, it lists
   it and keeps the entries whose name contains `ecommerce-orders`, in listing
   order.
2. The first such entry is the table directory, and `<table>/metadata` is its
   metadata directory.
3. If `version-hint.text` exists there, its whitespace-stripped text `V`
   gives the file `v<V>.metadata.json`. The text is not checked to be a number.
4. Otherwise the script lists the metadata directory and keeps the names that
   end in `.metadata.json` and start with `v`. It sorts them stably by the
   integer between the leading character and the first dot, and takes the last
   one.
5. Any step whose condition does not hold keeps the default path. Four
   situations abort the script instead: a base directory that exists but
   cannot be listed, an unreadable hint file, a metadata directory that
   cannot be listed, and a candidate name whose version segment is not an
   integer.

The project models this resolution as a pure function `Locator.Resolve` over a
snapshot of the filesystem (`Locator.FsView`). It also models it as an
imperative method `Locator.ResolveMetadataPath`, which follows the script
statement by statement and sorts the candidates in place in an array. The
method is proved equal to the function. The modules are:

- `PyText`: the Python string operations the script uses. These are `in`,
  `startswith`, `endswith`, `strip()` with CPython's whitespace set,
  `split(".")[0]` and `x[1:]`.
- `Versions`: the sort key `int(x[1:].split(".")[0])`, with decimal parsing
  and printing.
- `Filters`: the two list comprehensions.
- `Selection`: key computation for `list.sort(key=...)`, the stable order's
  last element, and an in-place insertion sort.
- `Locator`: the filesystem view and the resolution itself.
- `ScanFacts` and `LocatorFacts`: properties of the directory scan and of the
  whole resolution.

Three behaviours of the script are easy to misread; the model follows the
code:

- A version hint is used verbatim after stripping. A non-numeric hint still
  produces a path and raises nothing (`LocatorFacts.HintKeptVerbatim`).
- No table directory, or a scan with no candidate, keeps the default path
  (`LocatorFacts.DefaultKept`).
- Of several candidates with the same version (`v3` and `v03`), the stable
  sort leaves the one listed last at the end, so it is chosen
  (`ScanFacts.ScanChoiceLatestInListing`, `ScanFacts.TieGoesToLaterListed`).

The filesystem is an input. `os.path.exists` on `/tableflow` and on the base
directory becomes two booleans. Each `os.listdir` becomes a `Listing`, either
the names in order or `Unlistable` when the call would raise. Opening and
reading `version-hint.text` becomes a `HintFile`: absent, its text, or
unreadable.

## Model

| member | source | states |
|---|---|---|
| Locator.ResolveMetadataPath | scripts/query-iceberg-with-pyiceberg.py:17-44 | the imperative resolution, with its in-place sort of the candidates, returns exactly the path or the error that `Locator.Resolve` specifies for the same filesystem |
| Locator.Resolve | scripts/query-iceberg-with-pyiceberg.py:17-44 | nothing fails unless the mount point and the base directory exist, and the base-directory error arises exactly when that directory exists but cannot be listed |
| Locator.TableResult | scripts/query-iceberg-with-pyiceberg.py:31-44 | inside the table a path other than the default is the metadata directory, a `/`, then text that starts with `v` and ends with `.metadata.json`; a readable hint never fails; the hint error arises exactly when the hint cannot be read |
| Locator.HintPath | scripts/query-iceberg-with-pyiceberg.py:35-36 | the hint path is the metadata directory, a `/`, then text that starts with `v` and ends with `.metadata.json` |
| Locator.ScanResult | scripts/query-iceberg-with-pyiceberg.py:39-44 | the scan yields the default or the metadata directory joined with a listed candidate, and it can fail only on a non-integer version |
| Locator.ScanChoice | scripts/query-iceberg-with-pyiceberg.py:39-44 | a chosen name is a listed candidate, and a failure names a listed candidate |
| LocatorFacts.BaseDirUnlistableFails | scripts/query-iceberg-with-pyiceberg.py:24-26 | an existing base directory that cannot be listed aborts the resolution |
| LocatorFacts.HintFileIsNoCandidate | scripts/query-iceberg-with-pyiceberg.py:32-40 | the hint file `version-hint.text` itself is never a candidate of the scan |
| LocatorFacts.ResolvedPathInTable | scripts/query-iceberg-with-pyiceberg.py:28-44 | a resolved path other than the default is the discovered table's metadata directory, a `/`, then text that starts with `v` and ends with `.metadata.json`, whichever tier produced it |
| LocatorFacts.DiscoveryIsFirstMatch | scripts/query-iceberg-with-pyiceberg.py:26-29 | the table used is the base-directory entry containing `ecommerce-orders` that comes first in listing order: it contains the marker and no earlier entry does, in both directions |
| LocatorFacts.FirstMatchUnique | scripts/query-iceberg-with-pyiceberg.py:26-28 | at most one index is the first marker match, so the table directory is determined |
| LocatorFacts.ResolveDiscovered | scripts/query-iceberg-with-pyiceberg.py:26-29 | once a table entry is discovered, the result depends only on that entry's metadata directory and files |
| LocatorFacts.DefaultKept | scripts/query-iceberg-with-pyiceberg.py:18-41 | the fixed default path is the result when `/tableflow` is missing, when the base directory is missing, when no entry contains the marker, and when the scan finds no candidate |
| LocatorFacts.HintTierPath | scripts/query-iceberg-with-pyiceberg.py:32-36 | with a readable hint, the result is `<base>/<table>/metadata/v<stripped hint>.metadata.json` |
| LocatorFacts.HintTierIgnoresListing | scripts/query-iceberg-with-pyiceberg.py:33-39 | when a hint exists the metadata-directory listing has no influence on the result, whether it can be listed or not |
| LocatorFacts.HintKeptVerbatim | scripts/query-iceberg-with-pyiceberg.py:35-36 | surrounding whitespace of the hint is dropped and the remaining text is used unchanged, numeric or not |
| LocatorFacts.UnreadableHintFails | scripts/query-iceberg-with-pyiceberg.py:33-35 | a hint file that exists but cannot be read aborts the resolution with a hint error, whatever the listing holds |
| LocatorFacts.MissingMetadataDirFails | scripts/query-iceberg-with-pyiceberg.py:37-39 | without a hint, a metadata directory that cannot be listed aborts the resolution |
| LocatorFacts.ScanTierFailsOnBadVersion | scripts/query-iceberg-with-pyiceberg.py:39-43 | the scan fails exactly when some candidate's version segment is not an integer, and the error names such a candidate |
| LocatorFacts.ScanTierPicksMaximal | scripts/query-iceberg-with-pyiceberg.py:39-44 | a successful scan returns the metadata directory joined with a listed candidate whose version is at least every other candidate's |
| ScanFacts.ScanChoiceNone | scripts/query-iceberg-with-pyiceberg.py:40-41 | the scan chooses nothing exactly when no listed name is a candidate |
| ScanFacts.ScanChoiceFails | scripts/query-iceberg-with-pyiceberg.py:40-43 | the scan raises exactly when some candidate has no integer version, and reports one of those candidates |
| ScanFacts.ScanChoiceMaximal | scripts/query-iceberg-with-pyiceberg.py:39-44 | a chosen name is a listed candidate with an integer version that is maximal among all candidates |
| ScanFacts.ScanChoiceLatestAmongTies | scripts/query-iceberg-with-pyiceberg.py:43-44 | within the filtered candidate list, the chosen name sits at a position after which every candidate has a strictly smaller version, i.e. it is the last of the maximal ones |
| ScanFacts.ScanChoiceLatestInListing | scripts/query-iceberg-with-pyiceberg.py:39-44 | the same tie rule against the directory listing itself: the chosen name is listed at a position after which every `v...metadata.json` entry has a strictly smaller version |
| ScanFacts.CandidatePositionInListing | scripts/query-iceberg-with-pyiceberg.py:40 | a candidate followed only by smaller versions in the candidate list is also followed only by smaller versions among all listed entries |
| ScanFacts.ScanChoiceOrderIndependent | scripts/query-iceberg-with-pyiceberg.py:39-44 | two listings with the same names agree on failure, on choosing nothing, and on the version of the chosen file |
| ScanFacts.MetadataFileNameKey | scripts/query-iceberg-with-pyiceberg.py:40-43 | `v<n>.metadata.json` is a candidate and its version is `n` |
| ScanFacts.PaddedFileNameKey | scripts/query-iceberg-with-pyiceberg.py:40-43 | `v0<n>.metadata.json` is a candidate and its version is also `n` |
| ScanFacts.ScanChoiceChooses | scripts/query-iceberg-with-pyiceberg.py:43-44 | when some listed name is a candidate and every candidate has an integer version, the scan chooses a file (it neither fails nor keeps the default) |
| ScanFacts.UniqueMaximumWins | scripts/query-iceberg-with-pyiceberg.py:43-44 | a candidate with a strictly largest version is the one chosen, wherever it is listed |
| ScanFacts.HighestOfThreeWins | scripts/query-iceberg-with-pyiceberg.py:43-44 | among three generated metadata files the one with the highest version is chosen although it is listed in the middle |
| ScanFacts.ExampleHighestVersionWins | scripts/query-iceberg-with-pyiceberg.py:43-44 | listing versions 1, 3, 2 gives version 3 |
| ScanFacts.MetaFilesOfTwo | scripts/query-iceberg-with-pyiceberg.py:40 | a two-name listing of candidates is kept whole and in order by the filter |
| ScanFacts.TiedPairChoice | scripts/query-iceberg-with-pyiceberg.py:43-44 | of two listed candidates with the same version, the chosen one is the second |
| ScanFacts.LaterOfTwoTiedWins | scripts/query-iceberg-with-pyiceberg.py:43-44 | two tied candidates resolve to the later-listed one |
| ScanFacts.TieGoesToLaterListed | scripts/query-iceberg-with-pyiceberg.py:43-44 | `v<n>` and `v0<n>` tie, and in either listing order the later one is taken |
| Selection.VersionKeys | scripts/query-iceberg-with-pyiceberg.py:43 | computing every sort key succeeds with one candidate per name |
| Selection.VersionKeysSpec | scripts/query-iceberg-with-pyiceberg.py:43 | key computation succeeds iff every name has a key, then pairs each name with its key in order; otherwise it reports a name without a key |
| Selection.LastMaxIndex | scripts/query-iceberg-with-pyiceberg.py:43-44 | the index has a maximal version and every later index a strictly smaller one, which is what the last element of a stable ascending sort is |
| Selection.LastMaxIndexUnique | scripts/query-iceberg-with-pyiceberg.py:43-44 | only one index has that property, so the element taken is determined by the listing |
| Selection.LastMaxIndexExtend | scripts/query-iceberg-with-pyiceberg.py:43 | appending an element replaces the last-maximal one exactly when the new version is at least as large |
| Selection.SwapWithPrevious | scripts/query-iceberg-with-pyiceberg.py:43 | exchanging two neighbours changes only those two places and keeps the same elements |
| Selection.InsertAt | scripts/query-iceberg-with-pyiceberg.py:43 | inserting the next element keeps the prefix sorted and the same elements, leaves the rest untouched, and yields the later of the two top elements when they tie |
| Selection.SortByVersion | scripts/query-iceberg-with-pyiceberg.py:43-44 | the array ends sorted by version as a permutation of its old contents, with the last-listed maximal element last |
| Versions.ParseDecimal | scripts/query-iceberg-with-pyiceberg.py:43 | the model's `int()` succeeds exactly on a non-empty string of ASCII decimal digits (narrower than Python's, see below) |
| Versions.Decimal | scripts/query-iceberg-with-pyiceberg.py:43 | printing a number gives a non-empty digit string |
| Versions.ParseDecimalOfDecimal | scripts/query-iceberg-with-pyiceberg.py:43 | parsing a printed number gives the number back |
| Versions.LeadingZeroIgnored | scripts/query-iceberg-with-pyiceberg.py:43 | a leading zero does not change the value read |
| Versions.VersionKey | scripts/query-iceberg-with-pyiceberg.py:43 | the key exists exactly when the segment between the first character and the first dot is a non-empty digit string |
| Versions.VersionKeyOf | scripts/query-iceberg-with-pyiceberg.py:43 | a name of the form `<c><digits>.<rest>` has the value of its digits as key, whatever the rest holds |
| Versions.VersionKeyRejects | scripts/query-iceberg-with-pyiceberg.py:43 | a name whose segment before the first dot is not a digit string has no key |
| Versions.KeyOfV10 | scripts/query-iceberg-with-pyiceberg.py:43 | `v10.metadata.json` has version 10 |
| Versions.KeyOfV1Dot2 | scripts/query-iceberg-with-pyiceberg.py:43 | only the part before the first dot counts: `v1.2.metadata.json` has version 1 |
| Versions.KeyOfEmptySegment | scripts/query-iceberg-with-pyiceberg.py:43 | `v.metadata.json` has no version, so the sort raises |
| Versions.KeyOfNonNumericSegment | scripts/query-iceberg-with-pyiceberg.py:43 | `vabc.metadata.json` has no version, so the sort raises |
| Versions.KeyOfDecimal | scripts/query-iceberg-with-pyiceberg.py:43 | `v<n>.<rest>` has version `n` for every `n` |
| Versions.KeyOfZeroPadded | scripts/query-iceberg-with-pyiceberg.py:43 | `v0<n>.<rest>` also has version `n` |
| Filters.Filter | scripts/query-iceberg-with-pyiceberg.py:26-40 | a comprehension never yields more elements than it reads |
| Filters.FilterMembers | scripts/query-iceberg-with-pyiceberg.py:26-40 | a comprehension keeps exactly the elements satisfying its condition |
| Filters.FilterAppend | scripts/query-iceberg-with-pyiceberg.py:26-40 | an element appended to the input is appended to the output exactly when it passes, so the output keeps the input's order and multiplicities |
| Filters.FilterPosition | scripts/query-iceberg-with-pyiceberg.py:26-40 | each output element comes from an input position after which the input filters to exactly the rest of the output |
| Filters.FilterLaterElements | scripts/query-iceberg-with-pyiceberg.py:40 | a property of all output elements after position `k` holds of every passing input element listed after the place output element `k` came from |
| Filters.FilterHead | scripts/query-iceberg-with-pyiceberg.py:26-28 | the filtered list is empty iff no element qualifies; otherwise its head is the first qualifying element |
| Filters.TableDirs | scripts/query-iceberg-with-pyiceberg.py:26 | the table entries are exactly the listed names containing `ecommerce-orders` |
| Filters.MarkerMakesTableDir | scripts/query-iceberg-with-pyiceberg.py:26 | a name with the marker at some position is a table entry |
| Filters.MetaFiles | scripts/query-iceberg-with-pyiceberg.py:40 | the candidates are exactly the listed names ending in `.metadata.json` and starting with `v` |
| PyText.ContainsIffOccurs | scripts/query-iceberg-with-pyiceberg.py:26 | substring containment holds iff the substring occurs at some position |
| PyText.Strip | scripts/query-iceberg-with-pyiceberg.py:35 | stripping never lengthens, leaves no whitespace at the ends, and gives the empty string exactly for all-whitespace text |
| PyText.StripPadded | scripts/query-iceberg-with-pyiceberg.py:35 | whitespace around a word with non-space ends is removed and the word survives unchanged |
| PyText.StripIdempotent | scripts/query-iceberg-with-pyiceberg.py:35 | stripping twice is stripping once |
| PyText.BeforeFirstDot | scripts/query-iceberg-with-pyiceberg.py:43 | the result is the longest dot-free prefix: a prefix without a dot, followed by a dot or by the end |
| PyText.BeforeFirstDotOf | scripts/query-iceberg-with-pyiceberg.py:43 | for a dot-free head, `(head + "." + rest).split(".")[0]` is the head |
| PyText.DropFirst | scripts/query-iceberg-with-pyiceberg.py:43 | `x[1:]` is what remains after the first character of a non-empty `x`, and empty for the empty string |

## Left out

- `main()` and everything after line 45 (PyIceberg, DuckDB, the printed reports): it is library I/O and formatting, not part of the path resolution.
- Real filesystem access: existence checks, listings and the hint file are inputs in `FsView`. Races between the checks and the reads are not modelled.
- `os.path.join` is modelled as joining with one `/`. Its special cases (an absolute second part, a trailing separator) cannot arise here: listed names contain no `/`, and the hint file name starts with `v`.
- Versions.ParseDecimal: accepts only a non-empty run of ASCII digits. Python's `int()` also accepts surrounding whitespace, a sign, `_` separators and non-ASCII digits, so `int(" 3")`, `int("+3")` and `int("1_0")` succeed in Python but fail here.
- Versions.VersionKey: inherits that restriction, so names such as `v+3.metadata.json` get a version in Python but make the scan fail here.
- A hint holding `/` (such as `1/x` or `../../x`) makes the hint tier name a file in a subdirectory of the metadata directory or outside it; the script does not prevent this, and the model promises only the string shape of the path, not that it names a file directly in the metadata directory.
- Text-mode decoding of the hint file (encoding, newline translation) is not modelled: the hint is the text `read()` returns.
- Selection.SortByVersion: proves sortedness, the permutation and which element ends up last, which is all the script uses. It does not prove the full relative order of equal-key elements that Python's stable sort (Timsort) guarantees.
- Python's exception types are not distinguished: each abort is one `ResolveError` constructor, and the exception it stands for is not modelled.
