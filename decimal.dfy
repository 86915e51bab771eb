/**
 * Decimal numerals: Python's `int(s)` on a string of ASCII digits, with
 * its limit on the length of the numeral, and `str(n)` on a natural number.
 */
module Decimal {

  predicate IsDigit(c: char) {
    '0' <= c <= '9'
  }

  predicate AllDigits(s: string) {
    forall i :: 0 <= i < |s| ==> IsDigit(s[i])
  }

  /** `s.isdigit()` for ASCII: non-empty and made of digits only. */
  predicate IsDigitString(s: string) {
    s != [] && AllDigits(s)
  }

  /** A numeral as `str` writes it: digits, no leading zero unless it is "0". */
  predicate Canonical(s: string) {
    IsDigitString(s) && (s[0] == '0' ==> |s| == 1)
  }

  function DigitValue(c: char): (d: nat)
    requires IsDigit(c)
    ensures d < 10
  {
    (c as int) - ('0' as int)
  }

  function DigitChar(d: nat): (c: char)
    requires d < 10
    ensures IsDigit(c) && DigitValue(c) == d
  {
    (('0' as int) + d) as char
  }

  /**
   * `sys.int_info.default_max_str_digits`: from Python 3.11 on, `int(s)`
   * raises `ValueError` on a numeral of more digits than this, leading
   * zeros included.
   */
  const MaxStrDigits: nat := 4300

  /** `int(s)` converts `s` instead of raising for its length. */
  predicate IntConverts(s: string) {
    |s| <= MaxStrDigits
  }

  /** `int(s)` for a string of ASCII digits (leading zeros allowed). */
  function DigitsValue(s: string): nat
    requires AllDigits(s)
  {
    if s == [] then 0 else DigitsValue(s[..|s| - 1]) * 10 + DigitValue(s[|s| - 1])
  }

  /** `str(n)`. */
  function NatToString(n: nat): (r: string)
    ensures Canonical(r)
    ensures r[0] == '0' ==> n == 0
    ensures n < 10 <==> |r| == 1
  {
    if n < 10 then [DigitChar(n)] else NatToString(n / 10) + [DigitChar(n % 10)]
  }

  /** `int(str(n)) == n`. */
  lemma {:induction false} ValueOfString(n: nat)
    ensures DigitsValue(NatToString(n)) == n
  {
    if n >= 10 {
      var s := NatToString(n);
      assert s[..|s| - 1] == NatToString(n / 10);
      ValueOfString(n / 10);
    }
  }

  /** A numeral whose first digit is not zero denotes at least 1. */
  lemma {:induction false} LeadingDigitPositive(s: string)
    requires IsDigitString(s) && s[0] != '0'
    ensures DigitsValue(s) >= 1
    decreases |s|
  {
    if |s| > 1 {
      var p := s[..|s| - 1];
      assert p[0] == s[0];
      LeadingDigitPositive(p);
    }
  }

  /** `str(int(s)) == s` exactly for canonical numerals. */
  lemma {:induction false} StringOfValue(s: string)
    requires Canonical(s)
    ensures NatToString(DigitsValue(s)) == s
    decreases |s|
  {
    var p := s[..|s| - 1];
    if |s| == 1 {
      assert p == [];
      assert [s[0]] == s;
    } else {
      assert p[0] == s[0] && s[0] != '0';
      LeadingDigitPositive(p);
      StringOfValue(p);
      var n := DigitsValue(s);
      assert n == DigitsValue(p) * 10 + DigitValue(s[|s| - 1]);
      assert n / 10 == DigitsValue(p) && n % 10 == DigitValue(s[|s| - 1]);
      assert s == p + [s[|s| - 1]];
    }
  }

  /** Leading zeros do not change the value `int` reads. */
  lemma {:induction false} LeadingZerosIgnored(k: nat, s: string)
    requires AllDigits(s)
    ensures AllDigits(Zeros(k) + s)
    ensures DigitsValue(Zeros(k) + s) == DigitsValue(s)
    decreases |s|, k
  {
    var z := Zeros(k) + s;
    if s == [] {
      assert z == Zeros(k);
      if k > 0 {
        assert z[..|z| - 1] == Zeros(k - 1) + [];
        LeadingZerosIgnored(k - 1, []);
      }
    } else {
      var p := s[..|s| - 1];
      assert z[..|z| - 1] == Zeros(k) + p;
      LeadingZerosIgnored(k, p);
    }
  }

  function Zeros(k: nat): (z: string)
    ensures |z| == k && forall i :: 0 <= i < k ==> z[i] == '0'
  {
    if k == 0 then [] else Zeros(k - 1) + ['0']
  }

  /** A number below 1000 has at most three digits. */
  lemma ShortNumeral(n: nat)
    requires n < 1000
    ensures |NatToString(n)| <= 3
  {
    if n >= 10 {
      assert n / 10 < 100;
      if n / 10 >= 10 {
        assert n / 10 / 10 < 10;
      }
    }
  }
}
