/**
 * `usize::to_string` for the collision counter, and the suffix the commit
 * loop appends: nothing for 0, the decimal digits otherwise.
 */
module Decimal {

  const Digits: string := "0123456789"

  predicate IsDigit(c: char)
  {
    '0' <= c <= '9'
  }

  function DigitValue(c: char): nat
  {
    if IsDigit(c) then (c - '0') as nat else 0
  }

  /** `n.to_string()`: decimal digits, most significant first, no leading zero. */
  function ToDecimal(n: nat): (s: string)
    ensures |s| >= 1
    ensures forall k :: 0 <= k < |s| ==> IsDigit(s[k])
    ensures s[0] == '0' ==> n == 0
  {
    if n < 10 then [Digits[n]]
    else ToDecimal(n / 10) + [Digits[n % 10]]
  }

  /** The value of a string of decimal digits. */
  function ValueOf(s: string): nat
  {
    if s == [] then 0 else 10 * ValueOf(s[..|s| - 1]) + DigitValue(s[|s| - 1])
  }

  /** Reading the digits back gives the number. */
  lemma {:induction false} ValueOfToDecimal(n: nat)
    ensures ValueOf(ToDecimal(n)) == n
  {
    if n >= 10 {
      var s := ToDecimal(n);
      assert s[..|s| - 1] == ToDecimal(n / 10);
      ValueOfToDecimal(n / 10);
    } else {
      assert ToDecimal(n)[..0] == [];
    }
  }

  /** What the commit loop appends to the file name for counter value `i`. */
  function Suffix(i: nat): (s: string)
    ensures s == [] <==> i == 0
    ensures forall k :: 0 <= k < |s| ==> IsDigit(s[k])
  {
    if i == 0 then "" else ToDecimal(i)
  }

  /** Distinct counter values give distinct suffixes. */
  lemma SuffixInjective(i: nat, j: nat)
    requires Suffix(i) == Suffix(j)
    ensures i == j
  {
    if i != 0 {
      ValueOfToDecimal(i);
      ValueOfToDecimal(j);
    }
  }
}
