/**
 * Decimal text of natural numbers, as Python's str() and C++'s
 * std::to_string print them: no sign, no leading zeros, "0" for zero.
 * Shared by the modules that build file names and numbered lines.
 */
module Numerals {

  predicate IsDigit(c: char) {
    '0' <= c <= '9'
  }

  function DigitChar(d: nat): (c: char)
    requires d < 10
    ensures IsDigit(c)
  {
    "0123456789"[d]
  }

  function DigitValue(c: char): (d: nat)
    requires IsDigit(c)
    ensures d < 10
  {
    (c as int - '0' as int) as nat
  }

  /** The decimal representation of `n`. */
  function NatToString(n: nat): (r: string)
    ensures |r| >= 1
    ensures forall k :: 0 <= k < |r| ==> IsDigit(r[k])
    ensures |r| > 1 ==> r[0] != '0'
    decreases n
  {
    if n < 10 then [DigitChar(n)]
    else NatToString(n / 10) + [DigitChar(n % 10)]
  }

  /** Reads a string of decimal digits back as a number. */
  function ParseNat(s: string): (n: nat)
    requires forall k :: 0 <= k < |s| ==> IsDigit(s[k])
    decreases |s|
  {
    if s == [] then 0
    else 10 * ParseNat(s[..|s| - 1]) + DigitValue(s[|s| - 1])
  }

  /** Printing then parsing gives the number back, so distinct numbers print differently. */
  lemma {:induction false} ParseOfNatToString(n: nat)
    ensures ParseNat(NatToString(n)) == n
    decreases n
  {
    var s := NatToString(n);
    if n >= 10 {
      ParseOfNatToString(n / 10);
      assert s[..|s| - 1] == NatToString(n / 10);
    }
  }

  lemma NatToStringInjective(a: nat, b: nat)
    requires NatToString(a) == NatToString(b)
    ensures a == b
  {
    ParseOfNatToString(a);
    ParseOfNatToString(b);
  }

  /** Names that differ only in an embedded number differ when the numbers do. */
  lemma NumberedNamesDistinct(front: string, a: nat, b: nat, back: string)
    requires a != b
    ensures front + NatToString(a) + back != front + NatToString(b) + back
  {
    var sa, sb := NatToString(a), NatToString(b);
    if front + sa + back == front + sb + back {
      assert |sa| == |sb|;
      assert (front + sa + back)[|front|..|front| + |sa|] == sa;
      assert (front + sb + back)[|front|..|front| + |sb|] == sb;
      NatToStringInjective(a, b);
    }
  }
}
