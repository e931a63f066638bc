/**
 * Decimal text of integers, as Python's `str(int)` writes it: an optional '-'
 * followed by the digits of the magnitude, with no leading zeros.
 * `Parse` is the independent reader of that canonical syntax; the two are
 * proved to be inverse to each other.
 */
module Decimal {
  import opened Optional

  predicate IsDigit(c: char) {
    '0' <= c <= '9'
  }

  predicate AllDigits(s: string) {
    forall i :: 0 <= i < |s| ==> IsDigit(s[i])
  }

  function DigitChar(d: nat): (c: char)
    requires d < 10
    ensures IsDigit(c) && c as int - '0' as int == d
  {
    ('0' as int + d) as char
  }

  function DigitValue(c: char): (d: nat)
    requires IsDigit(c)
    ensures d < 10 && DigitChar(d) == c
  {
    c as int - '0' as int
  }

  /** The digits of a natural number, most significant first. */
  function Digits(n: nat): (s: string)
    ensures |s| > 0 && AllDigits(s)
    ensures s[0] == '0' ==> n == 0
    decreases n
  {
    if n < 10 then [DigitChar(n)] else Digits(n / 10) + [DigitChar(n % 10)]
  }

  /** The number a string of digits denotes (the empty string denotes 0). */
  function DigitsValue(s: string): nat
    requires AllDigits(s)
    decreases |s|
  {
    if s == [] then 0 else 10 * DigitsValue(s[..|s| - 1]) + DigitValue(s[|s| - 1])
  }

  /** Python's `str(n)` for an integer `n`. */
  function Text(n: int): (s: string)
    ensures |s| > 0
    ensures s[0] == '-' <==> n < 0
  {
    if n < 0 then "-" + Digits(-n) else Digits(n)
  }

  /** A run of digits with no superfluous leading zero. */
  predicate Canonical(s: string) {
    |s| > 0 && AllDigits(s) && (s[0] == '0' ==> |s| == 1)
  }

  /** Reads the canonical decimal text of an integer; anything else is None. */
  function Parse(s: string): Option<int> {
    if |s| > 0 && s[0] == '-' then
      if Canonical(s[1..]) && s[1] != '0' then Some(-(DigitsValue(s[1..]) as int)) else None
    else if Canonical(s) then Some(DigitsValue(s))
    else None
  }

  lemma {:induction false} DigitsValueOfDigits(n: nat)
    ensures DigitsValue(Digits(n)) == n
    decreases n
  {
    if n >= 10 {
      var s := Digits(n);
      assert s[..|s| - 1] == Digits(n / 10);
      DigitsValueOfDigits(n / 10);
    }
  }

  lemma {:induction false} LeadingNonZeroIsPositive(s: string)
    requires |s| > 0 && AllDigits(s) && s[0] != '0'
    ensures DigitsValue(s) > 0
    decreases |s|
  {
    if |s| > 1 {
      LeadingNonZeroIsPositive(s[..|s| - 1]);
    }
  }

  lemma {:induction false} DigitsOfDigitsValue(s: string)
    requires Canonical(s)
    ensures Digits(DigitsValue(s)) == s
    decreases |s|
  {
    if |s| > 1 {
      var p := s[..|s| - 1];
      LeadingNonZeroIsPositive(p);
      DigitsOfDigitsValue(p);
      assert p + [s[|s| - 1]] == s;
    }
  }

  /** Reading back the text of any integer gives that integer. */
  lemma ParseText(n: int)
    ensures Parse(Text(n)) == Some(n)
  {
    if n < 0 {
      assert Text(n)[1..] == Digits(-n);
      DigitsValueOfDigits(-n);
    } else {
      DigitsValueOfDigits(n);
    }
  }

  /** Whatever Parse accepts is exactly the text of the integer it returns. */
  lemma TextOfParse(s: string, n: int)
    requires Parse(s) == Some(n)
    ensures Text(n) == s
  {
    if |s| > 0 && s[0] == '-' {
      var m := s[1..];
      LeadingNonZeroIsPositive(m);
      DigitsOfDigitsValue(m);
      assert "-" + m == s;
    } else {
      DigitsOfDigitsValue(s);
    }
  }

  /** Distinct integers have distinct texts. */
  lemma TextInjective(a: int, b: int)
    requires Text(a) == Text(b)
    ensures a == b
  {
    ParseText(a);
    ParseText(b);
  }
}
