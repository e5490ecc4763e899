/** Integers as int() reads them and str() prints them: blanks around, an optional sign,
    and digits that may be grouped by single underscores.  Every integer has many
    such texts, of which str() prints one. */
module IntegerTexts {
  import opened Decimals
  import opened Results
  import opened Strings

  predicate IsBlank(c: char) {
    c == ' ' || '\t' <= c <= '\r'
  }

  predicate AllBlank(s: string) {
    forall c :: c in s ==> IsBlank(c)
  }

  predicate IsSign(s: string) {
    s == "" || s == "+" || s == "-"
  }

  /** Digits, with single underscores between some of them. */
  predicate IsGrouped(s: string) {
    && s != "" && IsDigit(s[0]) && IsDigit(s[|s| - 1])
    && (forall c :: c in s ==> IsDigit(c) || c == '_')
    && forall i :: 0 <= i < |s| - 1 ==> s[i] != '_' || s[i + 1] != '_'
  }

  function Ungroup(s: string): (digits: string)
    ensures AllDigits(digits)
  {
    if s == "" then "" else (if IsDigit(s[0]) then [s[0]] else "") + Ungroup(s[1..])
  }

  function Signed(sign: string, n: nat): int {
    var value: int := n;
    if sign == "-" then -value else value
  }

  function SignOf(text: string): string {
    if "+" <= text then "+" else if "-" <= text then "-" else ""
  }

  function Trim(text: string): string {
    StripRight(DropWhile(text, IsBlank), IsBlank)
  }

  /** int(text); None stands for its ValueError. */
  function ReadInt(text: string): Option<int> {
    var trimmed := Trim(text);
    var sign := SignOf(trimmed);
    var digits := if sign == "" then trimmed else trimmed[1..];
    if IsGrouped(digits) then Some(Signed(sign, Parse(Ungroup(digits)))) else None
  }

  /** str(n) */
  function PrintInt(n: int): string {
    if n < 0 then "-" + Print(-n) else Print(n)
  }

  /** The texts str() prints. */
  predicate IsPrinted(s: string) {
    IsCanonical(s) || (s != "" && s[0] == '-' && IsCanonical(s[1..]) && s[1..] != "0")
  }

  /** Blanks around a text that neither begins nor ends with one are trimmed away. */
  lemma TrimDropsBlanks(before: string, text: string, after: string)
    requires AllBlank(before) && AllBlank(after)
    requires text != "" && !IsBlank(text[0]) && !IsBlank(text[|text| - 1])
    ensures Trim(before + text + after) == text
  {
    assert before + text + after == before + (text + after);
    TakeWhileAppend(before, text + after, IsBlank);
    StripRightAppend(text, after, IsBlank);
  }

  lemma TrimParts(text: string) returns (before: string, after: string)
    ensures AllBlank(before) && AllBlank(after) && text == before + Trim(text) + after
  {
    DroppedWhile(text, IsBlank);
    before := TakeWhile(text, IsBlank);
    var rest := DropWhile(text, IsBlank);
    StripRightPrefix(rest, IsBlank);
    after := rest[|Trim(text)|..];
  }

  lemma GroupedEnds(digits: string)
    requires IsGrouped(digits)
    ensures digits != "" && IsDigit(digits[0]) && IsDigit(digits[|digits| - 1])
  {
  }

  /** What an integer text means. */
  lemma IntegerTextsAreRead(before: string, sign: string, digits: string, after: string)
    requires AllBlank(before) && IsSign(sign) && IsGrouped(digits) && AllBlank(after)
    ensures ReadInt(before + (sign + digits) + after) == Some(Signed(sign, Parse(Ungroup(digits))))
  {
    GroupedEnds(digits);
    hide IsGrouped, Parse, Ungroup, Trim;
    var text := sign + digits;
    assert text[0] == if sign == "" then digits[0] else sign[0];
    assert text[|text| - 1] == digits[|digits| - 1];
    TrimDropsBlanks(before, text, after);
    assert SignOf(text) == sign;
    assert sign == "" ==> text == digits;
    assert sign != "" ==> text[1..] == digits;
  }

  /** A text is read exactly when it is blanks, an optional sign, grouped digits, blanks. */
  lemma ReadTextsAreIntegers(text: string) returns (before: string, sign: string, digits: string, after: string)
    requires ReadInt(text).Some?
    ensures AllBlank(before) && IsSign(sign) && IsGrouped(digits) && AllBlank(after)
    ensures text == before + (sign + digits) + after
  {
    hide IsGrouped, Parse, Ungroup, Trim;
    before, after := TrimParts(text);
    var trimmed := Trim(text);
    sign := SignOf(trimmed);
    digits := if sign == "" then trimmed else trimmed[1..];
    assert trimmed == sign + digits;
  }

  lemma {:induction false} UngroupDigits(s: string)
    requires AllDigits(s)
    ensures Ungroup(s) == s
  {
    if s != "" {
      assert s == [s[0]] + s[1..];
      assert s[0] in s;
      UngroupDigits(s[1..]);
    }
  }

  lemma NumeralIsGrouped(s: string)
    requires IsNumeral(s)
    ensures IsGrouped(s) && Ungroup(s) == s
  {
    assert s[0] in s && s[|s| - 1] in s;
    assert forall i :: 0 <= i < |s| ==> s[i] in s;
    UngroupDigits(s);
  }

  lemma NumeralIsRead(s: string)
    requires IsNumeral(s)
    ensures ReadInt(s) == Some(Parse(s))
  {
    hide IsGrouped, ReadInt, Parse;
    NumeralIsGrouped(s);
    IntegerTextsAreRead("", "", s, "");
    assert "" + ("" + s) + "" == s;
  }

  /** Printing and reading back. */
  lemma ReadPrintInt(n: int)
    ensures ReadInt(PrintInt(n)) == Some(n)
  {
    hide ReadInt, Parse, Print, IsGrouped;
    var size: nat := if n < 0 then -n else n;
    ParsePrint(size);
    NumeralIsGrouped(Print(size));
    IntegerTextsAreRead("", if n < 0 then "-" else "", Print(size), "");
    assert "" + ((if n < 0 then "-" else "") + Print(size)) + "" == PrintInt(n);
  }

  /** Reading and printing back changes no text exactly when it was printed. */
  lemma PrintReadExactly(s: string)
    ensures ReadInt(s).Some? && PrintInt(ReadInt(s).value) == s <==> IsPrinted(s)
  {
    hide ReadInt, Parse, Print, IsGrouped, Ungroup;
    if IsCanonical(s) {
      NumeralIsRead(s);
      PrintParse(s);
    } else if IsPrinted(s) {
      var digits := s[1..];
      NumeralIsGrouped(digits);
      IntegerTextsAreRead("", "-", digits, "");
      assert "" + ("-" + digits) + "" == s;
      PrintParse(digits);
      ParsePrint(0);
      assert Parse(digits) != 0 by {
        ZeroIsPrinted();
      }
    } else if ReadInt(s).Some? {
      var n := ReadInt(s).value;
      var size: nat := if n < 0 then -n else n;
      ParsePrint(size);
      ZeroIsPrinted();
      assert n < 0 ==> PrintInt(n)[1..] == Print(size);
    }
  }

  lemma ZeroIsPrinted()
    ensures Print(0) == "0" && Parse("0") == 0
  {
    ParsePrint(0);
  }
}
