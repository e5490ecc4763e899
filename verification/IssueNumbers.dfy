/** Comic issue numbers: normalization to one text, and the ranges a pack covers. */
module IssueNumbers {
  import opened Decimals
  import opened IntegerTexts
  import opened Results
  import opened Strings

  /** The text before the letters at its end. */
  function Numerics(value: string): (numeric: string)
    ensures numeric <= value
  {
    StripRightPrefix(value, IsLetter);
    StripRight(value, IsLetter)
  }

  /** A text without the zeros, and then without the dots, at its end. */
  function TrimFraction(s: string): string {
    StripRight(StripRight(s, c => c == '0'), c => c == '.')
  }

  /** The issue text used for matching; None stands for the ValueError of int(). */
  function Normalize(value: string): Option<string> {
    var numeric := Numerics(value);
    var suffix := Lower(value[|numeric|..]);
    if '.' in numeric then
      Some(TrimFraction(numeric) + suffix)
    else
      var n := ReadInt(numeric);
      if n.Some? then Some(PrintInt(n.value) + suffix) else None
  }

  /** Whether a range is expanded: whole-number ends in order, fewer than 100 apart. */
  predicate Expands(start: string, end: string) {
    IsNumeral(start) && IsNumeral(end) && Parse(start) <= Parse(end) && Parse(end) - Parse(start) < 100
  }

  /** The issues a "start-end" suffix of a title covers; none when it is not expanded. */
  function ExpandRange(start: string, end: string): seq<string> {
    if Expands(start, end) then
      Numbers(Parse(start), Parse(end) + 1)
    else
      []
  }

  function Numbers(from: nat, bound: nat): seq<string>
    requires from <= bound
    decreases bound - from
  {
    if from == bound then [] else [Print(from)] + Numbers(from + 1, bound)
  }

  // ----- What an issue text denotes -----

  /** An issue text taken apart: digits, an optional fraction, and letters. */
  datatype Issue = Issue(whole: string, fraction: Option<string>, suffix: string)

  predicate WellFormed(issue: Issue) {
    && IsNumeral(issue.whole)
    && (issue.fraction.Some? ==> IsNumeral(issue.fraction.value))
    && AllLetters(issue.suffix)
  }

  function Numeric(issue: Issue): string {
    issue.whole + if issue.fraction.Some? then "." + issue.fraction.value else ""
  }

  function Text(issue: Issue): string {
    Numeric(issue) + issue.suffix
  }

  /** The value of the digits after a decimal point. */
  function FractionValue(digits: string): real
    requires AllDigits(digits)
  {
    if digits == "" then 0.0 else (DigitValue(digits[0]) as real + FractionValue(digits[1..])) / 10.0
  }

  function Number(issue: Issue): real
    requires WellFormed(issue)
  {
    Parse(issue.whole) as real + if issue.fraction.Some? then FractionValue(issue.fraction.value) else 0.0
  }

  function TrimZeros(digits: string): string {
    StripRight(digits, c => c == '0')
  }

  /** The integer digits normalization keeps: a fraction protects leading zeros. */
  function KeptWhole(issue: Issue): string
    requires WellFormed(issue)
  {
    if issue.fraction.Some? then issue.whole else Print(Parse(issue.whole))
  }

  function Normalized(issue: Issue): Issue
    requires WellFormed(issue)
  {
    var fraction := if issue.fraction.Some? then TrimZeros(issue.fraction.value) else "";
    Issue(KeptWhole(issue), if fraction == "" then None else Some(fraction), Lower(issue.suffix))
  }

  // ----- Proofs -----

  lemma NumericEndsInDigit(issue: Issue)
    requires WellFormed(issue)
    ensures Numeric(issue) != "" && IsDigit(Numeric(issue)[|Numeric(issue)| - 1])
    ensures StripRight(Text(issue), IsLetter) == Numeric(issue)
    ensures '.' in Numeric(issue) <==> issue.fraction.Some?
  {
    StripRightAppend(Numeric(issue), issue.suffix, IsLetter);
    if issue.fraction.Some? {
      assert Numeric(issue)[|issue.whole|] == '.';
    }
  }

  lemma NormalizedWellFormed(issue: Issue)
    requires WellFormed(issue)
    ensures WellFormed(Normalized(issue))
  {
    LowerLetters(issue.suffix);
    ParsePrint(Parse(issue.whole));
    if issue.fraction.Some? {
      StripRightPrefix(issue.fraction.value, c => c == '0');
    }
  }

  /** Stripping zeros and then a dot from "whole.digits" leaves the kept fraction. */
  lemma StripFraction(whole: string, digits: string)
    requires IsNumeral(whole) && IsNumeral(digits)
    ensures TrimFraction(whole + "." + digits)
         == whole + if TrimZeros(digits) == "" then "" else "." + TrimZeros(digits)
  {
    var zero, dot := (c: char) => c == '0', (c: char) => c == '.';
    var kept := TrimZeros(digits);
    var start := whole + ".";
    if kept == "" {
      StripRightAll(digits, zero);
      StripRightAppend(start, digits, zero);
      StripRightAppend(whole, ".", dot);
      assert whole[|whole| - 1] in whole;
    } else {
      StripRightStops(start, digits, zero);
      StripRightPrefix(digits, zero);
      assert kept[|kept| - 1] in digits;
      assert start + kept == whole + ("." + kept);
    }
  }

  lemma NumericOf(value: string, numeric: string, suffix: string)
    requires value == numeric + suffix && AllLetters(suffix) && (numeric != "" ==> !IsLetter(numeric[|numeric| - 1]))
    ensures Numerics(value) == numeric && value[|numeric|..] == suffix
  {
    StripRightAppend(numeric, suffix, IsLetter);
  }

  /** Normalization of a well-formed text prints its normalized parts. */
  lemma NormalizePrintsParts(issue: Issue)
    requires WellFormed(issue)
    ensures Normalize(Text(issue)) == Some(Text(Normalized(issue)))
  {
    NumericEndsInDigit(issue);
    var numeric := Numeric(issue);
    NumericOf(Text(issue), numeric, issue.suffix);
    hide ReadInt, PrintInt, Numerics, Lower, StripRight, TrimZeros, Print, Parse;
    if issue.fraction.Some? {
      assert numeric == issue.whole + "." + issue.fraction.value;
      StripFraction(issue.whole, issue.fraction.value);
      assert Numeric(Normalized(issue))
          == issue.whole + if TrimZeros(issue.fraction.value) == "" then "" else "." + TrimZeros(issue.fraction.value);
    } else {
      assert numeric == issue.whole;
      NumeralIsRead(numeric);
      PrintNatural(Parse(numeric));
      assert Numeric(Normalized(issue)) == Print(Parse(issue.whole));
    }
  }

  lemma PrintNatural(n: nat)
    ensures PrintInt(n) == Print(n)
  {
  }

  lemma {:induction false} FractionBounds(digits: string)
    requires AllDigits(digits)
    ensures 0.0 <= FractionValue(digits) < 1.0
  {
    if digits != "" {
      FractionBounds(digits[1..]);
    }
  }

  lemma {:induction false} FractionTrailingZero(digits: string)
    requires AllDigits(digits)
    ensures FractionValue(digits + "0") == FractionValue(digits)
  {
    if digits == "" {
      assert ("0")[1..] == "";
      assert digits + "0" == "0";
      assert FractionValue("0") == (0 as real + FractionValue("")) / 10.0;
    } else {
      assert (digits + "0")[1..] == digits[1..] + "0";
      FractionTrailingZero(digits[1..]);
    }
  }

  lemma {:induction false} TrimZerosKeepsValue(digits: string)
    requires AllDigits(digits)
    ensures AllDigits(TrimZeros(digits)) && FractionValue(TrimZeros(digits)) == FractionValue(digits)
    ensures TrimZeros(digits) != "" ==> TrimZeros(digits)[|TrimZeros(digits)| - 1] != '0'
  {
    if digits != "" && digits[|digits| - 1] == '0' {
      var front := digits[..|digits| - 1];
      TrimZerosKeepsValue(front);
      FractionTrailingZero(front);
      assert digits == front + "0";
    }
  }

  predicate EndsInZero(digits: string) {
    digits != "" && digits[|digits| - 1] == '0'
  }

  lemma {:induction false} FractionPositive(digits: string)
    requires IsNumeral(digits) && !EndsInZero(digits)
    ensures FractionValue(digits) > 0.0
  {
    if |digits| == 1 {
      assert digits[1..] == "";
    } else {
      FractionPositive(digits[1..]);
    }
  }

  lemma {:induction false} FractionInjective(a: string, b: string)
    requires AllDigits(a) && AllDigits(b) && !EndsInZero(a) && !EndsInZero(b)
    requires FractionValue(a) == FractionValue(b)
    ensures a == b
  {
    if a == "" && b == "" {
    } else if a == "" {
      FractionPositive(b);
    } else if b == "" {
      FractionPositive(a);
    } else {
      FractionBounds(a[1..]);
      FractionBounds(b[1..]);
      var c, d := DigitValue(a[0]), DigitValue(b[0]);
      var x, y := FractionValue(a[1..]), FractionValue(b[1..]);
      assert c as real + x == d as real + y;
      assert c == d;
      FractionInjective(a[1..], b[1..]);
      assert a == [a[0]] + a[1..] && b == [b[0]] + b[1..];
    }
  }

  lemma DotEndsDigits(a: string, x: string, b: string, y: string)
    requires AllDigits(a) && AllDigits(b) && a + "." + x == b + "." + y
    ensures a == b && x == y
  {
    var m, n := a + "." + x, b + "." + y;
    assert forall i :: 0 <= i < |a| ==> m[i] == a[i] && a[i] in a;
    assert forall i :: 0 <= i < |b| ==> n[i] == b[i] && b[i] in b;
    assert !IsDigit(m[|a|]) && !IsDigit(n[|b|]);
    assert |a| == |b|;
    assert a == m[..|a|] && b == n[..|b|];
    assert x == m[|a| + 1..] && y == n[|b| + 1..];
  }

  /** A text has one way to be taken apart. */
  lemma PartsAreUnique(a: Issue, b: Issue)
    requires WellFormed(a) && WellFormed(b) && Text(a) == Text(b)
    ensures a == b
  {
    NumericEndsInDigit(a);
    NumericEndsInDigit(b);
    var m, n := Numeric(a), Numeric(b);
    assert m == n;
    assert a.suffix == Text(a)[|m|..] == Text(b)[|n|..] == b.suffix;
    if a.fraction.Some? {
      assert m == a.whole + "." + a.fraction.value;
      assert n == b.whole + "." + b.fraction.value;
      DotEndsDigits(a.whole, a.fraction.value, b.whole, b.fraction.value);
    } else {
      assert m == a.whole && n == b.whole;
    }
  }

  // ----- Main results -----

  /** Normalization keeps the number and the folded suffix the text denotes. */
  lemma NormalizeKeepsMeaning(issue: Issue)
    requires WellFormed(issue)
    ensures Normalize(Text(issue)) == Some(Text(Normalized(issue)))
    ensures WellFormed(Normalized(issue))
    ensures Number(Normalized(issue)) == Number(issue) && Normalized(issue).suffix == Lower(issue.suffix)
  {
    NormalizePrintsParts(issue);
    NormalizedWellFormed(issue);
    ParsePrint(Parse(issue.whole));
    if issue.fraction.Some? {
      TrimZerosKeepsValue(issue.fraction.value);
    }
  }

  /** Two texts normalize alike exactly when they denote the same issue and keep the
      same number of integer digits. */
  lemma NormalizeDecidesSameIssue(a: Issue, b: Issue)
    requires WellFormed(a) && WellFormed(b)
    ensures Normalize(Text(a)) == Normalize(Text(b)) <==>
      Number(a) == Number(b) && Lower(a.suffix) == Lower(b.suffix) && |KeptWhole(a)| == |KeptWhole(b)|
  {
    NormalizeKeepsMeaning(a);
    NormalizeKeepsMeaning(b);
    var m, n := Normalized(a), Normalized(b);
    if Text(m) == Text(n) {
      PartsAreUnique(m, n);
    }
    if Number(a) == Number(b) && m.suffix == n.suffix && |KeptWhole(a)| == |KeptWhole(b)| {
      var x := if m.fraction.Some? then m.fraction.value else "";
      var y := if n.fraction.Some? then n.fraction.value else "";
      if a.fraction.Some? {
        TrimZerosKeepsValue(a.fraction.value);
      }
      if b.fraction.Some? {
        TrimZerosKeepsValue(b.fraction.value);
      }
      FractionBounds(x);
      FractionBounds(y);
      assert Parse(m.whole) as real + FractionValue(x) == Parse(n.whole) as real + FractionValue(y);
      assert Parse(m.whole) == Parse(n.whole);
      FractionInjective(x, y);
      SameLengthInjective(m.whole, n.whole);
    }
  }

  /** Normalizing twice changes nothing exactly when the digits kept are already
      canonical or a non-zero fraction stays behind them. */
  lemma NumberIsStableExactly(issue: Issue)
    requires WellFormed(issue)
    ensures Normalize(Text(issue)).Some?
    ensures Normalize(Normalize(Text(issue)).value) == Normalize(Text(issue)) <==>
      issue.fraction.None? || TrimZeros(issue.fraction.value) != "" || IsCanonical(issue.whole)
  {
    NormalizeKeepsMeaning(issue);
    var once := Normalized(issue);
    NormalizePrintsParts(once);
    NormalizedWellFormed(once);
    NormalizedTwice(issue);
    if Text(Normalized(once)) == Text(once) {
      PartsAreUnique(Normalized(once), once);
    }
  }

  lemma NormalizedTwice(issue: Issue)
    requires WellFormed(issue) && WellFormed(Normalized(issue))
    ensures Normalized(Normalized(issue)) == Normalized(issue) <==>
      issue.fraction.None? || TrimZeros(issue.fraction.value) != "" || IsCanonical(issue.whole)
  {
    var once := Normalized(issue);
    LowerLetters(issue.suffix);
    ParsePrint(Parse(once.whole));
    ParsePrint(Parse(issue.whole));
    if once.fraction.Some? {
      TrimZerosKeepsValue(issue.fraction.value);
      assert TrimZeros(once.fraction.value) == once.fraction.value;
    } else if IsCanonical(once.whole) {
      PrintParse(once.whole);
    }
  }

  /** "007.0" becomes "007" and only then "7". */
  lemma LeadingZerosNeedTwoPasses()
    ensures Normalize("007.0") == Some("007") && Normalize("007") == Some("7")
  {
    FirstPass();
    SecondPass();
  }

  lemma FirstPass()
    ensures Normalize("007.0") == Some("007")
  {
    hide Normalize, Lower;
    var issue := Issue("007", Some("0"), "");
    assert Text(issue) == "007.0";
    NormalizePrintsParts(issue);
    assert TrimZeros("0") == "" by {
      assert ("0")[..0] == "";
    }
    assert |Lower("")| == 0;
    assert Text(Normalized(issue)) == "007";
  }

  lemma SecondPass()
    ensures Normalize("007") == Some("7")
  {
    hide Normalize, Lower;
    var plain := Issue("007", None, "");
    assert Text(plain) == "007";
    NormalizePrintsParts(plain);
    assert Parse("007") == 7 by {
      assert ("007")[..2] == "00" && ("00")[..1] == "0" && ("0")[..0] == "";
    }
    assert |Lower("")| == 0;
    assert Text(Normalized(plain)) == "7";
  }

  /** The expansion lists each covered issue once, in order. */
  lemma {:induction false} NumbersInOrder(from: nat, bound: nat)
    requires from <= bound
    ensures |Numbers(from, bound)| == bound - from
    ensures forall i :: 0 <= i < bound - from ==> Numbers(from, bound)[i] == Print(from + i)
    decreases bound - from
  {
    if from < bound {
      NumbersInOrder(from + 1, bound);
    }
  }

  lemma NumbersCover(from: nat, bound: nat, n: nat)
    requires from <= bound
    ensures Print(n) in Numbers(from, bound) <==> from <= n < bound
  {
    NumbersInOrder(from, bound);
    var numbers := Numbers(from, bound);
    if Print(n) in numbers {
      var i: nat :| i < |numbers| && numbers[i] == Print(n);
      PrintInjective(from + i, n);
    }
    if from <= n < bound {
      assert numbers[n - from] == Print(n);
    }
  }

  lemma PrintedIsPlain(n: nat, issue: Issue)
    requires WellFormed(issue) && Text(issue) == Print(n)
    ensures issue.suffix == "" && issue.fraction.None? && IsCanonical(issue.whole) && Parse(issue.whole) == n
  {
    var plain := Issue(Print(n), None, "");
    ParsePrint(n);
    assert Text(plain) == Print(n);
    hide Text, Print;
    PartsAreUnique(issue, plain);
  }

  /** The texts of an expansion, taken apart. */
  lemma IssueInNumbers(from: nat, bound: nat, issue: Issue)
    requires from <= bound && WellFormed(issue)
    ensures Text(issue) in Numbers(from, bound) <==>
      issue.suffix == "" && issue.fraction.None? && IsCanonical(issue.whole) && from <= Parse(issue.whole) < bound
  {
    hide WellFormed, Text, Print;
    NumbersInOrder(from, bound);
    var numbers := Numbers(from, bound);
    if Text(issue) in numbers {
      var i: nat :| i < |numbers| && numbers[i] == Text(issue);
      PrintedIsPlain(from + i, issue);
    } else if issue.suffix == "" && issue.fraction.None? && IsCanonical(issue.whole) {
      PrintParse(issue.whole);
      PlainText(issue);
      NumbersCover(from, bound, Parse(issue.whole));
    }
  }

  lemma PlainText(issue: Issue)
    requires issue.suffix == "" && issue.fraction.None?
    ensures Text(issue) == issue.whole
  {
  }

  lemma NormalizedForRanges(issue: Issue)
    requires WellFormed(issue)
    ensures var normalized := Normalized(issue);
      && AllDigits(normalized.whole) && Parse(normalized.whole) == Parse(issue.whole)
      && (normalized.suffix == "" <==> issue.suffix == "")
      && (normalized.fraction.None? <==> issue.fraction.None? || TrimZeros(issue.fraction.value) == "")
      && (IsCanonical(normalized.whole) <==> issue.fraction.None? || IsCanonical(issue.whole))
  {
    ParsePrint(Parse(issue.whole));
    assert |Lower(issue.suffix)| == |issue.suffix|;
  }

  /** A range covers an issue exactly when the range is expanded, the issue has no suffix
      and lies between its ends, and a fraction, if it is written, is zero behind integer
      digits without padding: "5.0" is covered as "5" and "05" are, "05.0" is not. */
  lemma RangeCoverageIsExact(start: string, end: string, issue: Issue)
    requires WellFormed(issue)
    ensures Normalize(Text(issue)).Some?
    ensures Normalize(Text(issue)).value in ExpandRange(start, end) <==>
      && issue.suffix == "" && IsNumeral(start) && IsNumeral(end) && Parse(end) < Parse(start) + 100
      && Parse(start) <= Parse(issue.whole) <= Parse(end)
      && (issue.fraction.Some? ==> TrimZeros(issue.fraction.value) == "" && IsCanonical(issue.whole))
  {
    NormalizeKeepsMeaning(issue);
    NormalizedForRanges(issue);
    hide Normalize, Normalized, Text, TrimZeros, IsCanonical, Numbers, Number, Parse, Lower;
    if Expands(start, end) {
      IssueInNumbers(Parse(start), Parse(end) + 1, Normalized(issue));
    }
  }

  // ----- Issue texts without a dot -----

  /** Any integer int() reads, with letters behind it, normalizes to that integer. */
  lemma IntegerIssuesNormalize(before: string, sign: string, digits: string, after: string, suffix: string)
    requires AllBlank(before) && IsSign(sign) && IsGrouped(digits) && AllBlank(after) && AllLetters(suffix)
    ensures Normalize(before + (sign + digits) + after + suffix)
         == Some(PrintInt(Signed(sign, Parse(Ungroup(digits)))) + Lower(suffix))
  {
    var numeric := before + (sign + digits) + after;
    GroupedEnds(digits);
    assert numeric[|numeric| - 1] == if after == "" then digits[|digits| - 1] else after[|after| - 1];
    assert after != "" ==> after[|after| - 1] in after;
    NumericOf(numeric + suffix, numeric, suffix);
    assert '.' !in before && '.' !in sign && '.' !in digits && '.' !in after;
    assert '.' !in numeric;
    hide ReadInt, PrintInt, Numerics, IsGrouped, Lower, Parse, Ungroup;
    IntegerTextsAreRead(before, sign, digits, after);
  }

  /** No other text without a dot is readable. */
  lemma ReadableIssuesAreIntegers(value: string)
    returns (before: string, sign: string, digits: string, after: string, suffix: string)
    requires '.' !in value && Normalize(value).Some?
    ensures AllBlank(before) && IsSign(sign) && IsGrouped(digits) && AllBlank(after) && AllLetters(suffix)
    ensures value == before + (sign + digits) + after + suffix
  {
    hide ReadInt, PrintInt, Lower;
    var numeric := Numerics(value);
    StripRightPrefix(value, IsLetter);
    suffix := value[|numeric|..];
    assert value == numeric + suffix;
    before, sign, digits, after := ReadTextsAreIntegers(numeric);
  }

  /** Without a dot, normalizing twice changes nothing. */
  lemma IntegerIssuesAreStable(value: string)
    requires '.' !in value && Normalize(value).Some?
    ensures Normalize(Normalize(value).value) == Normalize(value)
  {
    hide Normalize, IsGrouped, Lower, Ungroup;
    var before, sign, digits, after, suffix := ReadableIssuesAreIntegers(value);
    IntegerIssuesNormalize(before, sign, digits, after, suffix);
    var n := Signed(sign, Parse(Ungroup(digits)));
    PrintedNormalizes(n, Lower(suffix), suffix);
  }

  lemma PrintedNormalizes(n: int, lower: string, suffix: string)
    requires AllLetters(suffix) && lower == Lower(suffix)
    ensures Normalize(PrintInt(n) + lower) == Some(PrintInt(n) + lower)
  {
    hide Normalize, IsGrouped, Lower, Ungroup, Parse, Print;
    LowerLetters(suffix);
    var sign, size: nat := if n < 0 then "-" else "", if n < 0 then -n else n;
    ParsePrint(size);
    NumeralIsGrouped(Print(size));
    IntegerIssuesNormalize("", sign, Print(size), "", lower);
    assert "" + (sign + Print(size)) + "" == PrintInt(n);
  }

  // ----- Any issue text -----

  /** What is kept of the part before the letters when a dot is in it. */
  function Kept(value: string): string {
    TrimFraction(Numerics(value))
  }

  /** A text that normalization leaves as it is: lower-case letters behind a text with a dot
      that ends in neither a zero nor a dot, or behind an integer as str() prints it. */
  predicate IsNormal(text: string) {
    var core := Numerics(text);
    && (forall c :: c in text[|core|..] ==> !('A' <= c <= 'Z'))
    && if '.' in core then core[|core| - 1] != '0' && core[|core| - 1] != '.' else IsPrinted(core)
  }

  lemma StripsNothingExactly(s: string)
    requires s != ""
    ensures TrimFraction(s) <= s
    ensures TrimFraction(s) == s <==> s[|s| - 1] != '0' && s[|s| - 1] != '.'
  {
    var zero, dot := (c: char) => c == '0', (c: char) => c == '.';
    StripRightPrefix(s, zero);
    StripRightPrefix(StripRight(s, zero), dot);
  }

  /** The letters of a text with more letters behind it. */
  lemma MoreLetters(text: string, suffix: string)
    requires AllLetters(suffix)
    ensures var core := Numerics(text);
      Numerics(text + suffix) == core && (text + suffix)[|core|..] == text[|core|..] + suffix
  {
    StripRightAppend(text, suffix, IsLetter);
  }

  lemma EqualParts(a: string, b: string, c: string, d: string, suffix: string)
    requires |b| == |d|
    ensures a + b + suffix == c + d + suffix <==> a == c && b == d
  {
    var m, n := a + b + suffix, c + d + suffix;
    if m == n {
      assert |a| == |c|;
      assert a == m[..|a|] && c == n[..|c|];
      assert b == m[|a|..|a| + |b|] && d == n[|c|..|c| + |d|];
    }
  }

  /** A text is its own normal form exactly when it is normal, whatever letters follow. */
  lemma IsOwnNormalFormExactly(text: string, suffix: string)
    requires AllLetters(suffix) && Lower(suffix) == suffix
    ensures Normalize(text + suffix) == Some(text + suffix) <==> IsNormal(text)
  {
    hide ReadInt, PrintInt, IsPrinted, Lower, TrimFraction;
    var core := Numerics(text);
    var letters := text[|core|..];
    MoreLetters(text, suffix);
    LowerAppend(letters, suffix);
    LowerIsSameExactly(letters);
    assert text == core + letters;
    hide Numerics;
    if '.' in core {
      StripsNothingExactly(core);
      assert TrimFraction(core) + (Lower(letters) + suffix) == TrimFraction(core) + Lower(letters) + suffix;
      EqualParts(TrimFraction(core), Lower(letters), core, letters, suffix);
    } else {
      PrintReadExactly(core);
      var n := ReadInt(core);
      if n.Some? {
        assert PrintInt(n.value) + (Lower(letters) + suffix) == PrintInt(n.value) + Lower(letters) + suffix;
        EqualParts(PrintInt(n.value), Lower(letters), core, letters, suffix);
      }
    }
  }

  /** The parts of any text, and what becomes of them when a dot is in it. */
  lemma DottedParts(value: string) returns (suffix: string)
    ensures AllLetters(suffix) && ('.' in value <==> '.' in Numerics(value))
    ensures '.' in value ==> Normalize(value) == Some(Kept(value) + Lower(suffix))
  {
    hide TrimFraction, Lower, ReadInt, PrintInt;
    var numeric := Numerics(value);
    suffix := value[|numeric|..];
    StripRightPrefix(value, IsLetter);
    assert value == numeric + suffix;
  }

  /** Normalizing any readable text twice changes nothing exactly when it has no dot or
      what is kept of it is normal. */
  lemma NormalizeIdempotentExactly(value: string)
    requires Normalize(value).Some?
    ensures Normalize(Normalize(value).value) == Normalize(value) <==> '.' !in value || IsNormal(Kept(value))
  {
    hide IsNormal, Lower, Normalize, Kept;
    if '.' in value {
      var suffix := DottedParts(value);
      LowerLetters(suffix);
      IsOwnNormalFormExactly(Kept(value), Lower(suffix));
    } else {
      IntegerIssuesAreStable(value);
    }
  }

  lemma DottedText(numeric: string, suffix: string)
    requires '.' in numeric && !IsLetter(numeric[|numeric| - 1]) && AllLetters(suffix)
    ensures Normalize(numeric + suffix) == Some(TrimFraction(numeric) + Lower(suffix))
  {
    NumericOf(numeric + suffix, numeric, suffix);
  }

  lemma SomeTrims()
    ensures TrimFraction("A.") == "A" && TrimFraction("-1.0") == "-1"
  {
    assert "A."[..1] == "A" && "-1.0"[..3] == "-1." && "-1."[..2] == "-1";
  }

  /** "A.B" becomes "Ab", which is unreadable; "-1.0" becomes "-1", which stays. */
  lemma DottedIssueTexts()
    ensures Normalize("A.B") == Some("Ab") && Normalize("Ab") == None
    ensures Normalize("-1.0") == Some("-1") && Normalize("-1") == Some("-1")
  {
    hide Normalize, TrimFraction;
    SomeTrims();
    assert Lower("B") == "b" && Lower("") == "";
    assert "A." + "B" == "A.B" && "A" + "b" == "Ab" && "-1.0" + "" == "-1.0" && "-1" + "" == "-1";
    DottedText("A.", "B");
    DottedText("-1.0", "");
    MinusOne();
    LettersAreUnreadable("Ab");
  }

  lemma LettersAreUnreadable(letters: string)
    requires AllLetters(letters)
    ensures Normalize(letters) == None
  {
    NumericOf(letters, "", letters);
    NothingIsNoInteger();
  }

  // ----- Ranges and integer texts -----

  /** A range covers an integer text, however it is signed, grouped or spaced, exactly
      when no letters follow and the integer lies between the ends. */
  lemma RangeCoversIntegers(start: string, end: string, before: string, sign: string, digits: string, after: string,
                            suffix: string)
    requires AllBlank(before) && IsSign(sign) && IsGrouped(digits) && AllBlank(after) && AllLetters(suffix)
    ensures var normal := Normalize(before + (sign + digits) + after + suffix);
      && normal.Some?
      && (normal.value in ExpandRange(start, end) <==>
            && suffix == "" && IsNumeral(start) && IsNumeral(end) && Parse(end) < Parse(start) + 100
            && Parse(start) <= Signed(sign, Parse(Ungroup(digits))) <= Parse(end))
  {
    hide Normalize, IsGrouped, Lower, Ungroup, Parse;
    IntegerIssuesNormalize(before, sign, digits, after, suffix);
    if Expands(start, end) {
      PrintedInRange(Parse(start), Parse(end) + 1, Signed(sign, Parse(Ungroup(digits))), Lower(suffix), suffix);
    }
  }

  lemma PrintedInRange(from: nat, bound: nat, n: int, lower: string, suffix: string)
    requires from <= bound && AllLetters(suffix) && lower == Lower(suffix)
    ensures PrintInt(n) + lower in Numbers(from, bound) <==> lower == "" && from <= n < bound
  {
    LowerLetters(suffix);
    hide Lower, Print, Parse, Numbers, IsCanonical;
    var text := PrintInt(n) + lower;
    if n < 0 {
      assert text[0] == '-';
      NumbersAreDigits(from, bound, text);
    } else {
      ParsePrint(n);
      NumberInRange(from, bound, n, lower);
    }
  }

  lemma NumberInRange(from: nat, bound: nat, n: nat, lower: string)
    requires from <= bound && AllLetters(lower)
    ensures Print(n) + lower in Numbers(from, bound) <==> lower == "" && from <= n < bound
  {
    var issue := Issue(Print(n), None, lower);
    ParsePrint(n);
    assert Text(issue) == Print(n) + lower;
    hide Text, Print, Parse, Numbers, IsCanonical;
    IssueInNumbers(from, bound, issue);
  }

  lemma NumbersAreDigits(from: nat, bound: nat, text: string)
    requires from <= bound && text != "" && !IsDigit(text[0])
    ensures text !in Numbers(from, bound)
  {
    NumbersInOrder(from, bound);
    hide Print;
    forall i: nat | i < bound - from ensures Numbers(from, bound)[i] != text {
      ParsePrint(from + i);
      assert Print(from + i)[0] in Print(from + i);
    }
  }

  /** Issue -1 is read; a word is not. */
  lemma SomeIssueTexts()
    ensures Normalize("-1") == Some("-1") && Normalize("Annual") == None
  {
    MinusOne();
    LettersAreUnreadable("Annual");
  }

  lemma MinusOne()
    ensures Normalize("-1") == Some("-1")
  {
    hide Normalize;
    assert "1"[..0] == "" && Parse("1") == 1 && Print(1) == "1";
    NumeralIsGrouped("1");
    IntegerIssuesNormalize("", "-", "1", "", "");
    assert "" + ("-" + "1") + "" + "" == "-1";
    assert PrintInt(-1) + Lower("") == "-1";
  }

  lemma NothingIsNoInteger()
    ensures ReadInt("") == None
  {
  }
}
