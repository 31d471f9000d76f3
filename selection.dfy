/**
 * The scan tier's choice: every candidate gets its version key
 * (`key=lambda x: int(x[1:].split(".")[0])`), the candidates are sorted
 * stably by key in place, and the last one is taken (`meta_files[-1]`).
 */
module Selection {
  import opened Wrappers

  /** A metadata file name paired with its parsed version key. */
  datatype Candidate = Candidate(name: string, version: nat)

  /**
   * The keys of all candidates, computed before any comparison is made, as
   * `list.sort(key=...)` does. The first name whose key is `None` (the key
   * function raised) aborts the computation, and with it the sort.
   */
  function VersionKeys(names: seq<string>, key: string -> Option<nat>): (r: Result<seq<Candidate>, string>)
    ensures r.Ok? ==> |r.value| == |names|
  {
    if |names| == 0 then Ok([])
    else
      var k := key(names[0]);
      if k.None? then Err(names[0])
      else
        var tail := VersionKeys(names[1..], key);
        if tail.Err? then Err(tail.error)
        else Ok([Candidate(names[0], k.value)] + tail.value)
  }

  /**
   * The keys are computed for all names or for none: they are all computed,
   * each paired with its own name in the original order, exactly when every
   * name's key exists; otherwise the reported name is one without a key.
   */
  lemma {:induction false} VersionKeysSpec(names: seq<string>, key: string -> Option<nat>)
    ensures VersionKeys(names, key).Ok? <==> forall i :: 0 <= i < |names| ==> key(names[i]).Some?
    ensures VersionKeys(names, key).Ok? ==>
      forall i :: 0 <= i < |names| ==>
        VersionKeys(names, key).value[i] == Candidate(names[i], key(names[i]).value)
    ensures VersionKeys(names, key).Err? ==>
      VersionKeys(names, key).error in names && key(VersionKeys(names, key).error).None?
  {
    if |names| > 0 {
      var tail := names[1..];
      VersionKeysSpec(tail, key);
      assert forall i :: 1 <= i < |names| ==> names[i] == tail[i - 1];
      if key(names[0]).Some? && VersionKeys(tail, key).Ok? {
        var r := VersionKeys(names, key).value;
        assert forall i :: 1 <= i < |names| ==> r[i] == VersionKeys(tail, key).value[i - 1];
      }
    }
  }

  /**
   * Where the last element of a stable sort by version comes from: the
   * candidate, latest in the original order, among those of maximal version.
   */
  function LastMaxIndex(cs: seq<Candidate>): (i: nat)
    requires |cs| > 0
    ensures i < |cs|
    ensures forall j :: 0 <= j < |cs| ==> cs[j].version <= cs[i].version
    ensures forall j :: i < j < |cs| ==> cs[j].version < cs[i].version
  {
    if |cs| == 1 then 0
    else
      var k := LastMaxIndex(cs[..|cs| - 1]);
      if cs[|cs| - 1].version >= cs[k].version then |cs| - 1 else k
  }

  /** The two properties of `LastMaxIndex` pin the index down: no other index has both. */
  lemma LastMaxIndexUnique(cs: seq<Candidate>, i: nat)
    requires i < |cs|
    requires forall j :: 0 <= j < |cs| ==> cs[j].version <= cs[i].version
    requires forall j :: i < j < |cs| ==> cs[j].version < cs[i].version
    ensures i == LastMaxIndex(cs)
  {
  }

  /** Where the maximum of the first `i + 1` candidates comes from, given that of the first `i`. */
  lemma LastMaxIndexExtend(s: seq<Candidate>, i: nat)
    requires 1 <= i < |s|
    ensures s[LastMaxIndex(s[..i + 1])] ==
      if s[i].version >= s[LastMaxIndex(s[..i])].version then s[i] else s[LastMaxIndex(s[..i])]
  {
    assert s[..i + 1][..i] == s[..i];
  }

  predicate SortedByVersion(s: seq<Candidate>)
  {
    forall p, q :: 0 <= p < q < |s| ==> s[p].version <= s[q].version
  }

  /** Exchanges `a[j - 1]` and `a[j]`. */
  method SwapWithPrevious(a: array<Candidate>, j: nat)
    requires 0 < j < a.Length
    modifies a
    ensures a[..] == old(a[..])[j - 1 := old(a[j])][j := old(a[j - 1])]
    ensures multiset(a[..]) == multiset(old(a[..]))
  {
    a[j - 1], a[j] := a[j], a[j - 1];
  }

  /**
   * One step of the insertion sort: the element at `i` moves left past every
   * element of larger version in the sorted prefix before it, never past an
   * equal one, which keeps the sort stable.
   */
  method InsertAt(a: array<Candidate>, i: nat)
    requires 1 <= i < a.Length
    requires SortedByVersion(a[..i])
    modifies a
    ensures SortedByVersion(a[..i + 1])
    ensures multiset(a[..]) == multiset(old(a[..]))
    ensures a[i + 1..] == old(a[i + 1..])
    ensures a[i] == if old(a[i]).version >= old(a[i - 1]).version then old(a[i]) else old(a[i - 1])
  {
    ghost var x := a[i];
    ghost var top := a[i - 1];
    var j := i;
    while j > 0 && a[j - 1].version > a[j].version
      invariant 0 <= j <= i
      invariant forall p, q :: 0 <= p < q <= i && p != j && q != j ==> a[p].version <= a[q].version
      invariant forall q :: j < q <= i ==> a[j].version < a[q].version
      invariant multiset(a[..]) == multiset(old(a[..]))
      invariant a[i + 1..] == old(a[i + 1..])
      invariant a[j] == x
      invariant j == i ==> a[i - 1] == top
      invariant j < i ==> a[i] == top && x.version < top.version
    {
      SwapWithPrevious(a, j);
      j := j - 1;
    }
  }

  /**
   * `meta_files.sort(key=...)` once the keys are known: a stable insertion sort
   * in place. Afterwards the array is a permutation of what it held, ordered by
   * version, and its last element is the latest-listed candidate among those
   * of maximal version.
   */
  method SortByVersion(a: array<Candidate>)
    modifies a
    ensures SortedByVersion(a[..])
    ensures multiset(a[..]) == multiset(old(a[..]))
    ensures a.Length > 0 ==> a[a.Length - 1] == old(a[..])[LastMaxIndex(old(a[..]))]
  {
    if a.Length == 0 {
      return;
    }
    ghost var s := a[..];
    var i := 1;
    assert s[..1] == [s[0]];
    while i < a.Length
      invariant 1 <= i <= a.Length
      invariant SortedByVersion(a[..i])
      invariant multiset(a[..]) == multiset(s)
      invariant a[i..] == s[i..]
      invariant a[i - 1] == s[LastMaxIndex(s[..i])]
    {
      assert a[i] == s[i] && a[i + 1..] == s[i + 1..];
      InsertAt(a, i);
      LastMaxIndexExtend(s, i);
      i := i + 1;
    }
    assert s[..a.Length] == s;
    assert a[..a.Length] == a[..];
  }
}
