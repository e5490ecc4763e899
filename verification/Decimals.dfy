/** Decimal text of natural numbers, as str() prints and int() reads it.  A numeral is a
    text of digits, perhaps with leading zeros; the canonical numerals are those that
    str() prints, and on them printing and reading are inverse to each other. */
module Decimals {
  predicate IsDigit(c: char) {
    '0' <= c <= '9'
  }

  predicate AllDigits(s: string) {
    forall c :: c in s ==> IsDigit(c)
  }

  /** A non-empty run of digits. */
  predicate IsNumeral(s: string) {
    s != "" && AllDigits(s)
  }

  /** A numeral without a leading zero, except "0" itself. */
  predicate IsCanonical(s: string) {
    IsNumeral(s) && (|s| == 1 || s[0] != '0')
  }

  function DigitValue(c: char): (d: nat)
    requires IsDigit(c)
    ensures d < 10
  {
    c as int - '0' as int
  }

  function DigitChar(d: nat): (c: char)
    requires d < 10
    ensures IsDigit(c) && DigitValue(c) == d
  {
    (d + '0' as int) as char
  }

  function Print(n: nat): string {
    if n < 10 then [DigitChar(n)] else Print(n / 10) + [DigitChar(n % 10)]
  }

  function Parse(s: string): nat
    requires AllDigits(s)
  {
    if s == "" then 0 else Parse(s[..|s| - 1]) * 10 + DigitValue(s[|s| - 1])
  }

  lemma {:induction false} ParsePrint(n: nat)
    ensures IsCanonical(Print(n)) && Parse(Print(n)) == n
    ensures n > 0 ==> Print(n)[0] != '0'
  {
    if n < 10 {
      assert Print(n)[..0] == "";
    } else {
      ParsePrint(n / 10);
      var front := Print(n / 10);
      assert Print(n)[..|front|] == front;
    }
  }

  lemma {:induction false} CanonicalIsPositive(s: string)
    requires IsCanonical(s) && |s| > 1
    ensures Parse(s) >= 10
  {
    var front := s[..|s| - 1];
    if |front| == 1 {
      assert front[..0] == "";
    } else {
      CanonicalIsPositive(front);
    }
  }

  lemma {:induction false} PrintParse(s: string)
    requires IsCanonical(s)
    ensures Print(Parse(s)) == s
  {
    if |s| == 1 {
      assert s[..0] == "";
    } else {
      CanonicalIsPositive(s);
      var front, last := s[..|s| - 1], s[|s| - 1];
      PrintParse(front);
      var n, d := Parse(front), DigitValue(last);
      assert Parse(s) == n * 10 + d;
      assert (n * 10 + d) / 10 == n && (n * 10 + d) % 10 == d;
      assert DigitChar(d) == last;
      assert s == front + [last];
    }
  }

  lemma PrintInjective(m: nat, n: nat)
    requires Print(m) == Print(n)
    ensures m == n
  {
    ParsePrint(m);
    ParsePrint(n);
  }

  /** Numerals of one length denote different numbers when they differ. */
  lemma {:induction false} SameLengthInjective(a: string, b: string)
    requires AllDigits(a) && AllDigits(b) && |a| == |b| && Parse(a) == Parse(b)
    ensures a == b
  {
    if a != "" {
      var m, n := Parse(a[..|a| - 1]), Parse(b[..|b| - 1]);
      var c, d := DigitValue(a[|a| - 1]), DigitValue(b[|b| - 1]);
      assert m * 10 + c == n * 10 + d;
      assert m == n && c == d;
      SameLengthInjective(a[..|a| - 1], b[..|b| - 1]);
      assert a == a[..|a| - 1] + [a[|a| - 1]];
      assert b == b[..|b| - 1] + [b[|b| - 1]];
    }
  }
}
