// strconv.FormatUint and strconv.ParseUint in base 10, and the strings they hand to each other.
module Decimal {
  import opened Wrappers

  const TWO64: int := 0x1_0000_0000_0000_0000

  type uint64 = x: int | 0 <= x < TWO64

  predicate IsDigit(c: char) {
    '0' <= c <= '9'
  }

  predicate AllDigits(s: string) {
    forall k :: 0 <= k < |s| ==> IsDigit(s[k])
  }

  // SemVer 2.0.0 section 9: numeric identifiers must not include leading zeroes.
  predicate LeadingZero(s: string) {
    |s| > 1 && s[0] == '0'
  }

  function ValueOf(s: string): nat
    requires AllDigits(s)
  {
    if s == [] then 0 else ValueOf(s[..|s| - 1]) * 10 + (s[|s| - 1] as int - '0' as int)
  }

  function DigitChar(d: int): char
    requires 0 <= d < 10
  {
    ('0' as int + d) as char
  }

  function FormatUint(n: nat): string {
    if n < 10 then [DigitChar(n)] else FormatUint(n / 10) + [DigitChar(n % 10)]
  }

  function ParseUint(s: string): Option<uint64> {
    if s != "" && AllDigits(s) && ValueOf(s) < TWO64 then Some(ValueOf(s)) else None
  }

  lemma {:induction false} FormatIsNumeral(n: nat)
    ensures FormatUint(n) != "" && AllDigits(FormatUint(n)) && !LeadingZero(FormatUint(n))
    ensures FormatUint(n)[0] == '0' ==> n == 0
    ensures ValueOf(FormatUint(n)) == n
  {
    if n >= 10 {
      FormatIsNumeral(n / 10);
      var s := FormatUint(n);
      assert s[..|s| - 1] == FormatUint(n / 10);
    } else {
      assert FormatUint(n)[..0] == [];
    }
  }

  lemma {:induction false} NumeralOfValue(s: string)
    requires s != "" && AllDigits(s) && !LeadingZero(s)
    ensures FormatUint(ValueOf(s)) == s
    ensures s[0] != '0' ==> ValueOf(s) > 0
  {
    var head := s[..|s| - 1];
    assert s == head + [s[|s| - 1]];
    if head != [] {
      NumeralOfValue(head);
    } else {
      assert ValueOf(head) == 0;
    }
  }

  // Without leading zeroes, equal values are equal strings.
  lemma SameValueSameNumeral(s: string, t: string)
    requires s != "" && AllDigits(s) && !LeadingZero(s)
    requires t != "" && AllDigits(t) && !LeadingZero(t)
    requires ValueOf(s) == ValueOf(t)
    ensures s == t
  {
    NumeralOfValue(s);
    NumeralOfValue(t);
  }
}
