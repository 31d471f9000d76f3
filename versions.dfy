/**
 * The version key of a metadata file name: `int(x[1:].split(".")[0])`,
 * the integer written between the leading character and the first dot.
 * `int()` is modelled on non-empty strings of ASCII decimal digits only.
 */
module Versions {
  import opened Wrappers
  import opened PyText

  predicate IsDigit(c: char)
  {
    '0' <= c <= '9'
  }

  predicate AllDigits(s: string)
  {
    forall i :: 0 <= i < |s| ==> IsDigit(s[i])
  }

  function DigitValue(c: char): (d: nat)
    requires IsDigit(c)
    ensures d < 10
  {
    c as int - '0' as int
  }

  function DigitChar(d: nat): (c: char)
    requires d < 10
    ensures IsDigit(c) && DigitValue(c) == d
  {
    ('0' as int + d) as char
  }

  /** The number a digit string denotes, read most significant digit first. */
  function DecimalValue(s: string): nat
    requires AllDigits(s)
  {
    if |s| == 0 then 0 else DecimalValue(s[..|s| - 1]) * 10 + DigitValue(s[|s| - 1])
  }

  /** `int(s)` on the strings the model admits: `None` stands for the `ValueError`. */
  function ParseDecimal(s: string): (r: Option<nat>)
    ensures r.Some? <==> |s| > 0 && AllDigits(s)
  {
    if |s| > 0 && AllDigits(s) then Some(DecimalValue(s)) else None
  }

  /** The shortest decimal spelling of `n`, the reference against which parsing is checked. */
  function Decimal(n: nat): (s: string)
    ensures |s| > 0 && AllDigits(s)
  {
    if n < 10 then [DigitChar(n)] else Decimal(n / 10) + [DigitChar(n % 10)]
  }

  /** Parsing the decimal spelling of a number gives that number back. */
  lemma {:induction false} ParseDecimalOfDecimal(n: nat)
    ensures ParseDecimal(Decimal(n)) == Some(n)
  {
    DecimalValueOfDecimal(n);
  }

  lemma {:induction false} DecimalValueOfDecimal(n: nat)
    ensures DecimalValue(Decimal(n)) == n
  {
    if n >= 10 {
      var s := Decimal(n);
      assert s[..|s| - 1] == Decimal(n / 10);
      DecimalValueOfDecimal(n / 10);
    }
  }

  /** A leading zero does not change the number, as with `int("03") == 3`. */
  lemma {:induction false} LeadingZeroIgnored(s: string)
    requires AllDigits(s)
    ensures AllDigits("0" + s) && DecimalValue("0" + s) == DecimalValue(s)
    decreases |s|
  {
    var z := "0" + s;
    assert AllDigits(z) by {
      forall i | 0 <= i < |z| ensures IsDigit(z[i]) {
        if i > 0 { assert z[i] == s[i - 1]; }
      }
    }
    if |s| > 0 {
      var s' := s[..|s| - 1];
      assert z[..|z| - 1] == "0" + s';
      LeadingZeroIgnored(s');
    }
  }

  /** The version key of a file name; `None` where Python's `int()` raises `ValueError`. */
  function VersionKey(name: string): (k: Option<nat>)
    ensures k.Some? <==> |BeforeFirstDot(DropFirst(name))| > 0 && AllDigits(BeforeFirstDot(DropFirst(name)))
  {
    ParseDecimal(BeforeFirstDot(DropFirst(name)))
  }

  /**
   * The key is the whole digit run between the first character and the first
   * dot, whatever follows that dot.
   */
  lemma VersionKeyOf(first: char, digits: string, rest: string)
    requires |digits| > 0 && AllDigits(digits)
    ensures VersionKey([first] + digits + "." + rest) == Some(DecimalValue(digits))
  {
    var name := [first] + digits + "." + rest;
    assert DropFirst(name) == digits + "." + rest;
    assert '.' !in digits by {
      forall i | 0 <= i < |digits| ensures digits[i] != '.' {
        assert IsDigit(digits[i]);
      }
    }
    BeforeFirstDotOf(digits, rest);
  }

  /** A name whose text before the first dot is not a digit string has no key. */
  lemma VersionKeyRejects(first: char, head: string, rest: string)
    requires '.' !in head
    requires |head| == 0 || !AllDigits(head)
    ensures VersionKey([first] + head + "." + rest) == None
  {
    var name := [first] + head + "." + rest;
    assert DropFirst(name) == head + "." + rest;
    BeforeFirstDotOf(head, rest);
  }

  /** `v10.metadata.json` has key 10: not 1, and not the text `10.metadata`. */
  lemma KeyOfV10()
    ensures VersionKey("v10.metadata.json") == Some(10)
  {
    assert "v10.metadata.json" == ['v'] + "10" + "." + "metadata.json";
    VersionKeyOf('v', "10", "metadata.json");
    assert "10"[..1] == "1";
    assert DecimalValue("10") == 10;
  }

  /** `v1.2.metadata.json` has key 1: only the text before the first dot counts. */
  lemma KeyOfV1Dot2()
    ensures VersionKey("v1.2.metadata.json") == Some(1)
  {
    assert "v1.2.metadata.json" == ['v'] + "1" + "." + "2.metadata.json";
    VersionKeyOf('v', "1", "2.metadata.json");
  }

  /** `v.metadata.json` has an empty version segment, so no key. */
  lemma KeyOfEmptySegment()
    ensures VersionKey("v.metadata.json") == None
  {
    assert "v.metadata.json" == ['v'] + "" + "." + "metadata.json";
    VersionKeyRejects('v', "", "metadata.json");
  }

  /** `vabc.metadata.json` has a segment that is not a number, so no key. */
  lemma KeyOfNonNumericSegment()
    ensures VersionKey("vabc.metadata.json") == None
  {
    assert "vabc.metadata.json" == ['v'] + "abc" + "." + "metadata.json";
    assert !IsDigit("abc"[0]);
    VersionKeyRejects('v', "abc", "metadata.json");
  }

  /** The key of `v<N>.<rest>` is `N`: parsing inverts the decimal spelling. */
  lemma KeyOfDecimal(n: nat, rest: string)
    ensures VersionKey(['v'] + Decimal(n) + "." + rest) == Some(n)
  {
    VersionKeyOf('v', Decimal(n), rest);
    DecimalValueOfDecimal(n);
  }

  /** A leading zero does not change the key: `v0<N>.<rest>` ties with `v<N>.<rest>`. */
  lemma KeyOfZeroPadded(n: nat, rest: string)
    ensures VersionKey(['v'] + ("0" + Decimal(n)) + "." + rest) == Some(n)
  {
    var d := Decimal(n);
    LeadingZeroIgnored(d);
    VersionKeyOf('v', "0" + d, rest);
    DecimalValueOfDecimal(n);
  }
}
