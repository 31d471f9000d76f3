/**
 * The two list comprehensions of the resolution: the table directories among
 * the base directory's entries, and the metadata file candidates among the
 * metadata directory's entries. Both keep the listing's order.
 */
module Filters {
  import opened PyText

  /** The substring that identifies the table's directory. */
  const TableMarker: string := "ecommerce-orders"
  /** Metadata file names start with this ... */
  const VersionPrefix: string := "v"
  /** ... and end with this. */
  const MetadataSuffix: string := ".metadata.json"

  /** `[x for x in s if p(x)]`. */
  function Filter(s: seq<string>, p: string -> bool): (r: seq<string>)
    ensures |r| <= |s|
  {
    if |s| == 0 then []
    else (if p(s[0]) then [s[0]] else []) + Filter(s[1..], p)
  }

  /** The filtered list holds exactly the elements that pass the test. */
  lemma {:induction false} FilterMembers(s: seq<string>, p: string -> bool)
    ensures forall x :: x in Filter(s, p) <==> x in s && p(x)
  {
    if |s| > 0 {
      FilterMembers(s[1..], p);
      assert s == [s[0]] + s[1..];
    }
  }

  /**
   * The head of a filtered list is the first element of the list, in its own
   * order, that passes the test; and the filtered list is empty exactly when
   * nothing passes.
   */
  lemma {:induction false} FilterHead(s: seq<string>, p: string -> bool)
    ensures Filter(s, p) == [] <==> forall i :: 0 <= i < |s| ==> !p(s[i])
    ensures Filter(s, p) != [] ==>
      exists i :: 0 <= i < |s| && s[i] == Filter(s, p)[0] && p(s[i]) &&
        forall j :: 0 <= j < i ==> !p(s[j])
  {
    if |s| > 0 {
      FilterHead(s[1..], p);
      if !p(s[0]) {
        assert Filter(s, p) == Filter(s[1..], p);
        if Filter(s, p) != [] {
          var i :| 0 <= i < |s[1..]| && s[1..][i] == Filter(s, p)[0] && p(s[1..][i]) &&
            forall j :: 0 <= j < i ==> !p(s[1..][j]);
          assert s[i + 1] == s[1..][i];
          forall j | 0 <= j < i + 1 ensures !p(s[j]) {
            if j > 0 { assert s[j] == s[1..][j - 1]; }
          }
        } else {
          forall i | 0 <= i < |s| ensures !p(s[i]) {
            if i > 0 { assert s[i] == s[1..][i - 1]; }
          }
        }
      } else {
        assert Filter(s, p)[0] == s[0];
      }
    }
  }

  /**
   * Filtering a list that grows at the end extends the filtered list at the
   * end: with `Filter([], p) == []` this fixes the result as the passing
   * elements in their original order, each as often as it occurs.
   */
  lemma {:induction false} FilterAppend(s: seq<string>, x: string, p: string -> bool)
    ensures Filter(s + [x], p) == Filter(s, p) + (if p(x) then [x] else [])
  {
    if |s| > 0 {
      assert (s + [x])[1..] == s[1..] + [x];
      FilterAppend(s[1..], x, p);
    } else {
      assert s + [x] == [x];
    }
  }

  /**
   * Every element of the filtered list comes from a position of the original
   * list after which exactly the rest of the filtered list is found: the
   * filter keeps the listing's order.
   */
  lemma {:induction false} FilterPosition(s: seq<string>, p: string -> bool, k: nat)
    requires k < |Filter(s, p)|
    ensures exists i ::
              && 0 <= i < |s|
              && s[i] == Filter(s, p)[k]
              && Filter(s[i + 1..], p) == Filter(s, p)[k + 1..]
  {
    var f := Filter(s, p);
    if p(s[0]) {
      assert f == [s[0]] + Filter(s[1..], p);
      if k == 0 {
        assert s[0] == f[0] && Filter(s[1..], p) == f[1..];
      } else {
        FilterPosition(s[1..], p, k - 1);
        var i :| 0 <= i < |s[1..]| && s[1..][i] == Filter(s[1..], p)[k - 1] &&
          Filter(s[1..][i + 1..], p) == Filter(s[1..], p)[k..];
        assert s[1..][i + 1..] == s[i + 2..];
        assert s[i + 1] == f[k] && Filter(s[i + 2..], p) == f[k + 1..];
      }
    } else {
      assert f == Filter(s[1..], p);
      FilterPosition(s[1..], p, k);
      var i :| 0 <= i < |s[1..]| && s[1..][i] == Filter(s[1..], p)[k] &&
        Filter(s[1..][i + 1..], p) == Filter(s[1..], p)[k + 1..];
      assert s[1..][i + 1..] == s[i + 2..];
      assert s[i + 1] == f[k] && Filter(s[i + 2..], p) == f[k + 1..];
    }
  }

  /**
   * What holds of every element after position `k` of the filtered list
   * holds of every passing element listed after the place that element came
   * from.
   */
  lemma {:induction false} FilterLaterElements(s: seq<string>, p: string -> bool, k: nat, q: string -> bool)
    requires k < |Filter(s, p)|
    requires forall j :: k < j < |Filter(s, p)| ==> q(Filter(s, p)[j])
    ensures exists i ::
              && 0 <= i < |s|
              && s[i] == Filter(s, p)[k]
              && (forall j :: i < j < |s| && p(s[j]) ==> q(s[j]))
  {
    var f := Filter(s, p);
    FilterPosition(s, p, k);
    var i :| && 0 <= i < |s|
             && s[i] == f[k]
             && Filter(s[i + 1..], p) == f[k + 1..];
    FilterMembers(s[i + 1..], p);
    forall j | i < j < |s| && p(s[j])
      ensures q(s[j])
    {
      assert s[j] == s[i + 1..][j - i - 1];
      assert s[j] in f[k + 1..];
      var n :| 0 <= n < |f[k + 1..]| && f[k + 1..][n] == s[j];
      assert f[k + 1 + n] == s[j];
    }
  }

  /** The base directory entries taken as table directories (`"ecommerce-orders" in d`). */
  predicate IsTableDir(d: string)
  {
    Contains(d, TableMarker)
  }

  /** The entries taken as metadata files (`f.endswith(".metadata.json") and f.startswith("v")`). */
  predicate IsMetadataFile(f: string)
  {
    EndsWith(f, MetadataSuffix) && StartsWith(f, VersionPrefix)
  }

  function TableDirs(names: seq<string>): (r: seq<string>)
    ensures forall d :: d in r <==> d in names && IsTableDir(d)
  {
    FilterMembers(names, IsTableDir);
    Filter(names, IsTableDir)
  }

  function MetaFiles(files: seq<string>): (r: seq<string>)
    ensures forall f :: f in r <==> f in files && IsMetadataFile(f)
  {
    FilterMembers(files, IsMetadataFile);
    Filter(files, IsMetadataFile)
  }

  /** A name that contains the marker at some position is a table directory. */
  lemma MarkerMakesTableDir(d: string, i: int)
    requires OccursAt(d, TableMarker, i)
    ensures IsTableDir(d)
  {
    OccurrenceIsContained(d, TableMarker, i);
  }
}
