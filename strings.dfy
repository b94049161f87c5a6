/**
 * The two pieces of JavaScript string behaviour the provider relies on: `String(n)` of an
 * integer (decimal digits, a leading minus for negatives), and the default ordering
 * `Array.prototype.sort` uses without a comparator, which compares the `String` forms of
 * the elements code unit by code unit.
 */
module Strings {
  import Sorting

  function DigitChar(d: nat): (c: char)
    requires d < 10
    ensures '0' <= c <= '9'
  {
    (48 + d) as char
  }

  /** `String(n)` for a non-negative integer. */
  function NatToString(n: nat): (s: string)
    ensures |s| >= 1
    ensures forall k :: 0 <= k < |s| ==> '0' <= s[k] <= '9'
    ensures |s| == 1 <==> n < 10
    decreases n
  {
    if n < 10 then [DigitChar(n)] else NatToString(n / 10) + [DigitChar(n % 10)]
  }

  /** `String(i)` for an integer. */
  function IntToString(i: int): (s: string)
    ensures |s| >= 1
  {
    if i < 0 then "-" + NatToString(-i) else NatToString(i)
  }

  /** Different numbers have different decimal forms. */
  lemma {:induction false} NatToStringInjective(a: nat, b: nat)
    requires NatToString(a) == NatToString(b)
    ensures a == b
    decreases a
  {
    var sa, sb := NatToString(a), NatToString(b);
    if a >= 10 && b >= 10 {
      assert sa[|sa| - 1] == DigitChar(a % 10) && sb[|sb| - 1] == DigitChar(b % 10);
      assert sa[..|sa| - 1] == NatToString(a / 10);
      assert sb[..|sb| - 1] == NatToString(b / 10);
      NatToStringInjective(a / 10, b / 10);
    }
  }

  /** The decimal form starts with a minus exactly for negative numbers. */
  lemma IntToStringSign(i: int)
    ensures IntToString(i)[0] == '-' <==> i < 0
  {
    if i >= 0 {
      assert '0' <= NatToString(i)[0];
    }
  }

  lemma IntToStringInjective(a: int, b: int)
    requires IntToString(a) == IntToString(b)
    ensures a == b
  {
    var sa, sb := IntToString(a), IntToString(b);
    IntToStringSign(a);
    IntToStringSign(b);
    if a < 0 && b < 0 {
      assert sa[1..] == NatToString(-a) && sb[1..] == NatToString(-b);
      NatToStringInjective(-a, -b);
    } else if a >= 0 && b >= 0 {
      NatToStringInjective(a, b);
    }
  }

  /** Code-unit-wise comparison of two strings: negative, zero or positive. */
  function CompareStrings(a: string, b: string): (r: int)
    ensures -1 <= r <= 1
  {
    if a == [] && b == [] then 0
    else if a == [] then -1
    else if b == [] then 1
    else if a[0] < b[0] then -1
    else if a[0] > b[0] then 1
    else CompareStrings(a[1..], b[1..])
  }

  /** Swapping the strings negates the comparison; it is zero only for equal strings. */
  lemma {:induction false} CompareStringsAntisymmetric(a: string, b: string)
    ensures CompareStrings(b, a) == -CompareStrings(a, b)
    ensures CompareStrings(a, b) == 0 <==> a == b
  {
    if a != [] && b != [] && a[0] == b[0] {
      CompareStringsAntisymmetric(a[1..], b[1..]);
      if a[1..] == b[1..] {
        assert a == [a[0]] + a[1..] && b == [b[0]] + b[1..];
      }
    }
  }

  lemma {:induction false} CompareStringsTransitive(a: string, b: string, c: string)
    requires CompareStrings(a, b) <= 0 && CompareStrings(b, c) <= 0
    ensures CompareStrings(a, c) <= 0
  {
    if a != [] && b != [] && c != [] && a[0] == b[0] && b[0] == c[0] {
      CompareStringsTransitive(a[1..], b[1..], c[1..]);
    }
  }

  /** The default sort key of an integer element: its `String` form. */
  function CompareAsStrings(a: int, b: int): int
  {
    CompareStrings(IntToString(a), IntToString(b))
  }

  /** The default sort order on integers is a total preorder, and ties only equal numbers. */
  lemma CompareAsStringsIsTotalPreorder()
    ensures Sorting.TotalPreorder(CompareAsStrings)
    ensures forall a: int, b: int :: CompareAsStrings(a, b) == 0 ==> a == b
  {
    forall a: int, b: int ensures CompareAsStrings(a, b) <= 0 || CompareAsStrings(b, a) <= 0 {
      CompareStringsAntisymmetric(IntToString(a), IntToString(b));
    }
    forall a: int, b: int, c: int | CompareAsStrings(a, b) <= 0 && CompareAsStrings(b, c) <= 0
      ensures CompareAsStrings(a, c) <= 0
    {
      CompareStringsTransitive(IntToString(a), IntToString(b), IntToString(c));
    }
    forall a: int, b: int | CompareAsStrings(a, b) == 0 ensures a == b {
      CompareStringsAntisymmetric(IntToString(a), IntToString(b));
      IntToStringInjective(a, b);
    }
  }

  /** The default sort puts 10 before 9: "1" precedes "9". */
  lemma TenBeforeNine()
    ensures CompareAsStrings(10, 9) < 0
  {
    assert IntToString(10) == "10";
    assert IntToString(9) == "9";
  }
}
