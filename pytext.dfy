/**
 * The handful of Python `str` operations the metadata-path resolution relies on:
 * `startswith`, `endswith`, the substring test `sub in s`, `strip()` with no
 * argument, and the first piece of `split(".")`.
 */
module PyText {

  /** `s.startswith(p)`. */
  predicate StartsWith(s: string, p: string)
  {
    |p| <= |s| && s[..|p|] == p
  }

  /** `s.endswith(suffix)`. */
  predicate EndsWith(s: string, suffix: string)
  {
    |suffix| <= |s| && s[|s| - |suffix|..] == suffix
  }

  /** `sub` occurs in `s` starting at index `i`. */
  predicate OccursAt(s: string, sub: string, i: int)
  {
    0 <= i && i + |sub| <= |s| && s[i..i + |sub|] == sub
  }

  /** `sub in s`: tries every start position from the left. */
  predicate Contains(s: string, sub: string)
    decreases |s|
  {
    StartsWith(s, sub) || (|s| > 0 && Contains(s[1..], sub))
  }

  /** A match found by the substring test is a real occurrence. */
  lemma {:induction false} ContainsHasOccurrence(s: string, sub: string)
    requires Contains(s, sub)
    ensures exists i :: OccursAt(s, sub, i)
    decreases |s|
  {
    if StartsWith(s, sub) {
      assert OccursAt(s, sub, 0);
    } else {
      ContainsHasOccurrence(s[1..], sub);
      var i :| OccursAt(s[1..], sub, i);
      assert s[i + 1..i + 1 + |sub|] == s[1..][i..i + |sub|];
      assert OccursAt(s, sub, i + 1);
    }
  }

  /** Every occurrence is found by the substring test. */
  lemma {:induction false} OccurrenceIsContained(s: string, sub: string, i: int)
    requires OccursAt(s, sub, i)
    ensures Contains(s, sub)
    decreases i
  {
    if i == 0 {
      assert s[..|sub|] == s[0..0 + |sub|];
    } else {
      assert s[1..][i - 1..i - 1 + |sub|] == s[i..i + |sub|];
      OccurrenceIsContained(s[1..], sub, i - 1);
    }
  }

  /** The substring test holds exactly when `sub` occurs somewhere in `s`. */
  lemma ContainsIffOccurs(s: string, sub: string)
    ensures Contains(s, sub) <==> exists i :: OccursAt(s, sub, i)
  {
    if Contains(s, sub) {
      ContainsHasOccurrence(s, sub);
    }
    forall i | OccursAt(s, sub, i) ensures Contains(s, sub) {
      OccurrenceIsContained(s, sub, i);
    }
  }

  /**
   * The characters `str.strip()` removes: CPython's whitespace set,
   * the ASCII table `\t \n \v \f \r`, `\x1c`..`\x1f` and space, and the
   * Unicode whitespace code points beyond ASCII.
   */
  predicate IsSpace(c: char)
  {
    var n := c as int;
    (0x09 <= n <= 0x0D) || (0x1C <= n <= 0x20) || n == 0x85 || n == 0xA0 ||
    n == 0x1680 || (0x2000 <= n <= 0x200A) || n == 0x2028 || n == 0x2029 ||
    n == 0x202F || n == 0x205F || n == 0x3000
  }

  predicate AllSpace(s: string)
  {
    forall i :: 0 <= i < |s| ==> IsSpace(s[i])
  }

  /** The length of the run of whitespace that starts `s`. */
  function LeadingSpace(s: string): (n: nat)
    ensures n <= |s| && AllSpace(s[..n])
    ensures n < |s| ==> !IsSpace(s[n])
  {
    if |s| == 0 || !IsSpace(s[0]) then 0
    else
      var m := LeadingSpace(s[1..]);
      assert s[..m + 1] == [s[0]] + s[1..][..m];
      m + 1
  }

  /** The length of the run of whitespace that ends `s`. */
  function TrailingSpace(s: string): (n: nat)
    ensures n <= |s| && AllSpace(s[|s| - n..])
    ensures n < |s| ==> !IsSpace(s[|s| - n - 1])
  {
    if |s| == 0 || !IsSpace(s[|s| - 1]) then 0
    else
      var t := s[..|s| - 1];
      var m := TrailingSpace(t);
      assert s[|s| - (m + 1)..] == t[|t| - m..] + [s[|s| - 1]];
      m + 1
  }

  /** `s.strip()`: leading whitespace off, then trailing whitespace off. */
  function Strip(s: string): (r: string)
    ensures |r| <= |s|
    ensures r != [] ==> !IsSpace(r[0]) && !IsSpace(r[|r| - 1])
    ensures r == [] <==> AllSpace(s)
  {
    var lo := LeadingSpace(s);
    var t := s[lo..];
    var r := t[..|t| - TrailingSpace(t)];
    assert r == s[lo..lo + |r|];
    assert r == [] && lo < |s| ==> !AllSpace(s) by {
      if r == [] && lo < |s| {
        assert !IsSpace(s[lo]);
      }
    }
    assert r == [] && lo == |s| ==> AllSpace(s) by {
      if lo == |s| {
        assert s[..lo] == s;
      }
    }
    assert r != [] ==> !AllSpace(s) by {
      if r != [] {
        assert s[lo] == r[0];
      }
    }
    r
  }

  lemma {:induction false} LeadingSpaceOfPadded(pre: string, t: string)
    requires AllSpace(pre)
    requires t == [] || !IsSpace(t[0])
    ensures LeadingSpace(pre + t) == |pre|
    decreases |pre|
  {
    if |pre| == 0 {
      assert pre + t == t;
    } else {
      assert (pre + t)[1..] == pre[1..] + t;
      LeadingSpaceOfPadded(pre[1..], t);
    }
  }

  lemma {:induction false} TrailingSpaceOfPadded(t: string, post: string)
    requires AllSpace(post)
    requires t == [] || !IsSpace(t[|t| - 1])
    ensures TrailingSpace(t + post) == |post|
    decreases |post|
  {
    if |post| == 0 {
      assert t + post == t;
    } else {
      var post' := post[..|post| - 1];
      assert (t + post)[..|t + post| - 1] == t + post';
      TrailingSpaceOfPadded(t, post');
    }
  }

  /**
   * Stripping keeps the text between the surrounding whitespace verbatim:
   * whatever is inside (digits or not, inner spaces included) comes back unchanged.
   */
  lemma StripPadded(pre: string, t: string, post: string)
    requires AllSpace(pre) && AllSpace(post)
    requires t != [] ==> !IsSpace(t[0]) && !IsSpace(t[|t| - 1])
    ensures Strip(pre + t + post) == t
  {
    var s := pre + t + post;
    if t == [] {
      assert AllSpace(s) by {
        forall i | 0 <= i < |s| ensures IsSpace(s[i]) {
          if i < |pre| { assert s[i] == pre[i]; } else { assert s[i] == post[i - |pre|]; }
        }
      }
    } else {
      assert s == pre + (t + post);
      LeadingSpaceOfPadded(pre, t + post);
      assert s[|pre|..] == t + post;
      TrailingSpaceOfPadded(t, post);
      assert (t + post)[..|t|] == t;
    }
  }

  /** Stripping twice is stripping once. */
  lemma StripIdempotent(s: string)
    ensures Strip(Strip(s)) == Strip(s)
  {
    var r := Strip(s);
    StripPadded([], r, []);
    assert [] + r + [] == r;
  }

  /** `s.split(".")[0]`: the text before the first dot, or all of `s` when it has none. */
  function BeforeFirstDot(s: string): (r: string)
    ensures |r| <= |s| && r == s[..|r|]
    ensures '.' !in r
    ensures |r| < |s| ==> s[|r|] == '.'
  {
    if |s| == 0 || s[0] == '.' then []
    else [s[0]] + BeforeFirstDot(s[1..])
  }

  /** The first piece of a split is exactly the dot-free head in front of the first dot. */
  lemma {:induction false} BeforeFirstDotOf(head: string, rest: string)
    requires '.' !in head
    ensures BeforeFirstDot(head + "." + rest) == head
    decreases |head|
  {
    var s := head + "." + rest;
    if head != [] {
      assert s[0] == head[0];
      assert s[1..] == head[1..] + "." + rest;
      BeforeFirstDotOf(head[1..], rest);
      assert head == [head[0]] + head[1..];
    }
  }

  /** `s[1:]`: everything after the first character (empty for the empty string). */
  function DropFirst(s: string): (r: string)
    ensures |s| > 0 ==> [s[0]] + r == s
    ensures |s| == 0 ==> r == []
  {
    if |s| == 0 then [] else s[1..]
  }
}
