/** The displayed size of a catalog row: an exact decimal times a unit, rounded half up to
    bytes, with half a last digit as its tolerance. */
module LibGenSize {
  import opened Decimals
  import opened Results
  import opened Strings
  import LibGenMetadata

  /** Bytes per displayed unit. */
  type Unit = n: nat | n > 0 witness 1024

  datatype Size = Size(bytes: nat, tolerance: nat)

  /** A displayed size: `mantissa` scaled down by 10 to the `digits`, times `multiplier`. */
  datatype Display = Display(mantissa: nat, digits: nat, multiplier: Unit)

  function Power10(n: nat): (p: nat)
    ensures p >= 1
  {
    if n == 0 then 1 else 10 * Power10(n - 1)
  }

  /** numerator / denominator to the nearest integer, halves up. */
  function RoundHalfUp(numerator: nat, denominator: nat): nat
    requires denominator > 0
  {
    (2 * numerator + denominator) / (2 * denominator)
  }

  function SizeOf(display: Display): Size {
    var q := Power10(display.digits);
    Size(RoundHalfUp(display.mantissa * display.multiplier, q), RoundHalfUp(display.multiplier, 2 * q))
  }

  function Multiplier(suffix: string): Option<Unit> {
    var folded := Lower(suffix);
    if folded == "kb" then Some(1024)
    else if folded == "mb" then Some(1024 * 1024)
    else if folded == "gb" then Some(1024 * 1024 * 1024)
    else None
  }

  /** The bytes are the nearest to the displayed number of units, and the tolerance the
      nearest to half its last digit; halves are rounded up. */
  lemma SizeOfExactly(display: Display, bytes: nat, tolerance: nat)
    ensures SizeOf(display) == Size(bytes, tolerance) <==>
      var q, shown: int, unit: int :=
        Power10(display.digits), display.mantissa * display.multiplier, display.multiplier;
      && 2 * shown - q < 2 * bytes * q <= 2 * shown + q
      && unit - q < 2 * tolerance * q <= unit + q
  {
    var q := Power10(display.digits);
    RoundHalfUpExactly(display.mantissa * display.multiplier, q, bytes);
    RoundHalfUpExactly(display.multiplier, 2 * q, tolerance);
    assert 2 * tolerance * (2 * q) == 2 * (2 * tolerance * q);
  }

  lemma RoundHalfUpExactly(numerator: int, denominator: nat, n: nat)
    requires numerator >= 0 && denominator > 0
    ensures RoundHalfUp(numerator, denominator) == n <==>
      2 * numerator - denominator < 2 * n * denominator <= 2 * numerator + denominator
  {
    QuotientExactly(2 * numerator + denominator, 2 * denominator, n);
    assert n * (2 * denominator) == 2 * n * denominator;
  }

  lemma QuotientExactly(a: nat, b: nat, n: nat)
    requires b > 0
    ensures a / b == n <==> n * b <= a < n * b + b
  {
    var q := a / b;
    assert q * b <= a < q * b + b;
    if q < n {
      assert (q + 1) * b <= n * b;
    } else if q > n {
      assert (n + 1) * b <= q * b;
    }
  }

  /** The units are KB, MB and GB in any case, by powers of 1024. */
  lemma UnitsAreBinary(suffix: string, unit: Unit)
    ensures Multiplier(suffix) == Some(unit) <==>
      |suffix| == 2 && (suffix[1] == 'b' || suffix[1] == 'B')
      && (((suffix[0] == 'k' || suffix[0] == 'K') && unit == 1024)
          || ((suffix[0] == 'm' || suffix[0] == 'M') && unit == 1048576)
          || ((suffix[0] == 'g' || suffix[0] == 'G') && unit == 1073741824))
  {
    var folded := Lower(suffix);
    if |suffix| == 2 {
      assert folded == [LowerChar(suffix[0]), LowerChar(suffix[1])];
    }
  }

  function Digits(text: string): (digits: string)
    ensures digits <= text && AllDigits(digits)
  {
    TakeWhileTakes(text, IsDigit);
    TakeWhile(text, IsDigit)
  }

  /** The digits after a dot, when both follow. */
  function FractionDigits(text: string): (digits: string)
    ensures AllDigits(digits) && (digits != "" ==> |digits| < |text|)
  {
    if "." <= text then Digits(text[1..]) else ""
  }

  function AfterFraction(text: string): string {
    var digits := FractionDigits(text);
    if digits == "" then text else text[|digits| + 1..]
  }

  /** The size a normalized cell text shows: none for blank text, an error for text that
      is not a number and a unit. */
  function OptionalSize(text: string): Result<Option<Size>, ()> {
    if text == "" then Ok(None)
    else
      var whole := Digits(text);
      var after := text[|whole|..];
      var digits := FractionDigits(after);
      var multiplier := Multiplier(DropWhile(AfterFraction(after), IsSpace));
      if whole == "" || multiplier.None? then Err(())
      else Ok(Some(SizeOf(Display(Parse(whole + digits), |digits|, multiplier.value))))
  }

  function Fraction(digits: string): string {
    if digits == "" then "" else "." + digits
  }

  lemma DigitsAppend(digits: string, after: string)
    requires AllDigits(digits) && (after != "" ==> !IsDigit(after[0]))
    ensures Digits(digits + after) == digits && (digits + after)[|digits|..] == after
  {
    TakeWhileAppend(digits, after, IsDigit);
  }

  lemma FractionIsRead(digits: string, rest: string)
    requires AllDigits(digits) && rest != "" && rest[0] != '.' && !IsDigit(rest[0])
    ensures FractionDigits(Fraction(digits) + rest) == digits && AfterFraction(Fraction(digits) + rest) == rest
  {
    var text := Fraction(digits) + rest;
    if digits == "" {
      assert text == rest;
    } else {
      hide Digits;
      assert text[1..] == digits + rest && "." <= text;
      DigitsAppend(digits, rest);
    }
  }

  lemma FractionSplits(text: string)
    ensures text == Fraction(FractionDigits(text)) + AfterFraction(text)
  {
    hide Digits;
    var digits := FractionDigits(text);
    if digits != "" {
      var rest := text[1..];
      assert digits == Digits(rest) <= rest;
      assert rest == digits + rest[|digits|..] && text[|digits| + 1..] == rest[|digits|..];
      assert text == "." + rest;
    }
  }

  /** A number, an optional fraction, spaces and a unit are read as what they show. */
  lemma SizeTextIsRead(whole: string, digits: string, gap: string, suffix: string)
    requires IsNumeral(whole) && AllDigits(digits) && AllSpaces(gap) && Multiplier(suffix).Some?
    ensures OptionalSize(whole + (Fraction(digits) + (gap + suffix)))
         == Ok(Some(SizeOf(Display(Parse(whole + digits), |digits|, Multiplier(suffix).value))))
  {
    var rest := gap + suffix;
    UnitStart(gap, suffix);
    var after := Fraction(digits) + rest;
    assert after[0] == if digits == "" then rest[0] else '.';
    hide Digits, Multiplier, FractionDigits, AfterFraction, Fraction, Parse;
    DigitsAppend(whole, after);
    FractionIsRead(digits, rest);
    TakeWhileAppend(gap, suffix, IsSpace);
  }

  lemma UnitStart(gap: string, suffix: string)
    requires AllSpaces(gap) && Multiplier(suffix).Some?
    ensures suffix != "" && !IsSpace(suffix[0])
    ensures (gap + suffix)[0] != '.' && !IsDigit((gap + suffix)[0])
  {
    assert Lower(suffix)[0] == LowerChar(suffix[0]);
    assert gap != "" ==> (gap + suffix)[0] == gap[0] && gap[0] in gap;
    assert gap == "" ==> gap + suffix == suffix;
  }

  lemma AcceptedParts(text: string)
    requires OptionalSize(text).Ok? && text != ""
    ensures Digits(text) != ""
    ensures Multiplier(DropWhile(AfterFraction(text[|Digits(text)|..]), IsSpace)).Some?
  {
    hide Digits, Multiplier, FractionDigits, AfterFraction, Parse, SizeOf, DropWhile;
  }

  /** Every accepted text has that shape. */
  lemma ReadSizesHaveTheShape(text: string) returns (whole: string, digits: string, gap: string, suffix: string)
    requires OptionalSize(text).Ok? && text != ""
    ensures IsNumeral(whole) && AllDigits(digits) && AllSpaces(gap) && Multiplier(suffix).Some?
    ensures text == whole + (Fraction(digits) + (gap + suffix))
  {
    AcceptedParts(text);
    hide Digits, Multiplier, FractionDigits, AfterFraction, Fraction, OptionalSize, TakeWhile, DropWhile, IsSpace;
    whole := Digits(text);
    var after := text[|whole|..];
    digits := FractionDigits(after);
    FractionSplits(after);
    var rest := AfterFraction(after);
    DroppedWhile(rest, IsSpace);
    gap := TakeWhile(rest, IsSpace);
    suffix := DropWhile(rest, IsSpace);
    assert text == whole + after;
  }

  // ----- Rounding -----

  function Distance(a: int, b: int): nat {
    if a < b then b - a else a - b
  }

  /** Whether `display` shows a file of some bytes by rounding to nearest, however halves
      are rounded: no other mantissa is nearer. */
  ghost predicate ShowsNearest(display: Display, bytes: nat) {
    forall other: nat :: Distance(bytes * Power10(display.digits), display.mantissa * display.multiplier)
                         <= Distance(bytes * Power10(display.digits), other * display.multiplier)
  }

  /** Twice the distance between a file's size and the displayed one, in last digits of
      the display's fraction. */
  function TwiceOff(display: Display, bytes: nat): nat {
    2 * Distance(bytes * Power10(display.digits), display.mantissa * display.multiplier)
  }

  lemma NearestIsWithinHalf(display: Display, bytes: nat)
    requires ShowsNearest(display, bytes)
    ensures TwiceOff(display, bytes) <= display.multiplier
  {
    var value, m := bytes * Power10(display.digits), display.mantissa;
    assert m == 0 ==> m * display.multiplier == 0 <= value;
    assert Distance(value, m * display.multiplier) <= Distance(value, (m + 1) * display.multiplier);
    assert (m + 1) * display.multiplier == m * display.multiplier + display.multiplier;
    if m > 0 {
      assert Distance(value, m * display.multiplier) <= Distance(value, (m - 1) * display.multiplier);
      assert (m - 1) * display.multiplier == m * display.multiplier - display.multiplier;
    }
  }

  lemma DivisionBounds(a: nat, b: nat)
    requires b > 0
    ensures a / b * b <= a < a / b * b + b
  {
  }

  lemma CompareScaled(a: int, b: int, scale: nat)
    requires scale > 0
    ensures a * scale < b * scale ==> a < b
    ensures a <= b ==> a * scale <= b * scale
  {
    if a >= b {
      assert (a - b) * scale >= 0;
      assert a * scale == b * scale + (a - b) * scale;
    } else {
      assert (b - a) * scale >= 0;
      assert b * scale == a * scale + (b - a) * scale;
    }
  }

  lemma DistanceScaled(a: nat, b: nat, scale: nat)
    ensures Distance(a * scale, b * scale) == Distance(a, b) * scale
  {
    if a < b {
      assert (b - a) * scale == b * scale - a * scale;
    } else {
      assert (a - b) * scale == a * scale - b * scale;
    }
  }

  lemma SizeBounds(display: Display)
    ensures var q := Power10(display.digits); var size := SizeOf(display);
      && Distance(size.bytes * (2 * q), 2 * (display.mantissa * display.multiplier)) <= q
      && size.tolerance * (2 * q) <= display.multiplier + q < (size.tolerance + 1) * (2 * q)
  {
    var q := Power10(display.digits);
    var size := SizeOf(display);
    var shown, unit := display.mantissa * display.multiplier, display.multiplier;
    DivisionBounds(2 * shown + q, 2 * q);
    DivisionBounds(2 * unit + 2 * q, 2 * (2 * q));
    HalvedBounds(size.tolerance, q, unit);
    assert (size.tolerance + 1) * (2 * q) == size.tolerance * (2 * q) + 2 * q;
  }

  lemma HalvedBounds(t: nat, q: nat, unit: nat)
    requires t * (2 * (2 * q)) <= 2 * unit + 2 * q < t * (2 * (2 * q)) + 2 * (2 * q)
    ensures t * (2 * q) <= unit + q < t * (2 * q) + 2 * q
  {
    assert t * (2 * (2 * q)) == 2 * (t * (2 * q));
  }

  lemma OffScaled(display: Display, bytes: nat)
    ensures var q := Power10(display.digits);
      Distance(bytes * (2 * q), 2 * (display.mantissa * display.multiplier)) == TwiceOff(display, bytes)
  {
    assert bytes * (2 * Power10(display.digits)) == 2 * (bytes * Power10(display.digits));
  }

  // ----- Main results -----

  /** A file whose size is displayed by rounding to nearest is within the tolerance, so its
      metadata is never refused for rounding. */
  lemma RoundingIsTolerated(display: Display, bytes: nat)
    requires ShowsNearest(display, bytes)
    ensures Distance(bytes, SizeOf(display).bytes) <= SizeOf(display).tolerance
  {
    var q, size := Power10(display.digits), SizeOf(display);
    NearestIsWithinHalf(display, bytes);
    OffScaled(display, bytes);
    SizeBounds(display);
    DistanceScaled(bytes, size.bytes, 2 * q);
    CompareScaled(Distance(bytes, size.bytes), size.tolerance + 1, 2 * q);
  }

  /** Conversely a tolerated size is off by at most half a last digit and one byte. */
  lemma ToleratedIsClose(display: Display, bytes: nat)
    requires Distance(bytes, SizeOf(display).bytes) <= SizeOf(display).tolerance
    ensures TwiceOff(display, bytes) <= display.multiplier + 2 * Power10(display.digits)
  {
    var q, size := Power10(display.digits), SizeOf(display);
    OffScaled(display, bytes);
    SizeBounds(display);
    DistanceScaled(bytes, size.bytes, 2 * q);
    CompareScaled(Distance(bytes, size.bytes), size.tolerance, 2 * q);
  }

  /** A displayed size reads as zero bytes without tolerance exactly when the number and
      half its last digit both round to nothing. */
  lemma NothingShownExactly(display: Display)
    ensures SizeOf(display) == Size(0, 0) <==>
      && 2 * display.mantissa * display.multiplier < Power10(display.digits)
      && display.multiplier < Power10(display.digits)
  {
    var q := Power10(display.digits);
    var shown, unit := display.mantissa * display.multiplier, display.multiplier;
    assert 2 * display.mantissa * display.multiplier == 2 * shown;
    RoundsToZero(shown, q);
    RoundsToZero(unit, 2 * q);
  }

  lemma RoundsToZero(numerator: nat, denominator: nat)
    requires denominator > 0
    ensures RoundHalfUp(numerator, denominator) == 0 <==> 2 * numerator < denominator
  {
    QuotientIsZero(2 * numerator + denominator, 2 * denominator);
  }

  lemma QuotientIsZero(a: nat, b: nat)
    requires b > 0
    ensures a / b == 0 <==> a < b
  {
    DivisionBounds(a, b);
    assert a / b == 0 ==> a / b * b == 0;
    assert a / b >= 1 ==> a / b * b >= b by {
      CompareScaled(1, a / b, b);
    }
  }

  /** Such a cell exists: "0.0000 KB". The cell "0 KB" leaves a tolerance. */
  lemma FourZerosShowNothing()
    ensures OptionalSize("0.0000 KB") == Ok(Some(Size(0, 0)))
    ensures OptionalSize("0 KB") == Ok(Some(Size(0, 512)))
  {
    hide OptionalSize, SizeOf, Parse;
    KilobyteText("0.0000 KB", "0", "0000");
    KilobyteText("0 KB", "0", "");
    ParseZeros();
    assert "0" + "0000" == "00000" && "0" + "" == "0";
    ZeroKilobytes();
  }

  lemma ZeroKilobytes()
    ensures SizeOf(Display(0, 4, 1024)) == Size(0, 0) && SizeOf(Display(0, 0, 1024)) == Size(0, 512)
  {
    assert Power10(4) == 10000 && Power10(0) == 1;
    NothingShownExactly(Display(0, 4, 1024));
  }

  lemma KilobyteText(text: string, whole: string, digits: string)
    requires IsNumeral(whole) && AllDigits(digits) && text == whole + Fraction(digits) + " KB"
    ensures OptionalSize(text) == Ok(Some(SizeOf(Display(Parse(whole + digits), |digits|, 1024))))
  {
    hide OptionalSize, SizeOf, Parse;
    KilobyteSuffix();
    assert " " + "KB" == " KB";
    assert whole + (Fraction(digits) + (" " + "KB")) == text;
    SizeTextIsRead(whole, digits, " ", "KB");
  }

  lemma KilobyteSuffix()
    ensures Multiplier("KB") == Some(1024)
  {
    assert Lower("KB") == "kb";
  }

  lemma ParseZeros()
    ensures Parse("00000") == 0 && Parse("0") == 0
  {
    assert "00000"[..4] == "0000" && "0000"[..3] == "000" && "000"[..2] == "00" && "00"[..1] == "0" && "0"[..0] == "";
    assert Parse("0") == 0 && Parse("00") == 0 && Parse("000") == 0 && Parse("0000") == 0;
  }

  /** A row's expectation carries the size its cell shows; the size check of its metadata
      then passes for every size the cell may stand for, and only for sizes close to it. */
  lemma MetadataSizeCheck(expected: LibGenMetadata.Expectation, display: Display, bytes: nat)
    requires expected.sizeBytes == Some(SizeOf(display).bytes)
    requires expected.sizeTolerance == Some(SizeOf(display).tolerance)
    ensures ShowsNearest(display, bytes) ==> !LibGenMetadata.SizeConflicts(Some(bytes), expected)
    ensures !LibGenMetadata.SizeConflicts(Some(bytes), expected) ==>
      TwiceOff(display, bytes) <= display.multiplier + 2 * Power10(display.digits)
  {
    if ShowsNearest(display, bytes) {
      RoundingIsTolerated(display, bytes);
    }
    if !LibGenMetadata.SizeConflicts(Some(bytes), expected) {
      ToleratedIsClose(display, bytes);
    }
  }
}
