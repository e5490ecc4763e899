/** Collection titles such as "Vol. #3: Subtitle": the cursor scanner and its grammar. */
module CollectionTitles {
  import opened Decimals
  import opened Results
  import opened Strings

  /** The separators include the two Unicode dashes. */
  predicate IsSeparator(c: char) {
    c == ':' || c == '-' || c == '\U{2013}' || c == '\U{2014}'
  }

  function DropOne(s: string, p: char -> bool): string {
    if StartsWith(s, p) then s[1..] else s
  }

  /** The first label the title begins with, in any case. */
  function LabelOf(title: string): Option<string> {
    var folded := Lower(title);
    if "volume" <= folded then Some("volume")
    else if "vol" <= folded then Some("vol")
    else if "book" <= folded then Some("book")
    else if "part" <= folded then Some("part")
    else None
  }

  datatype Parts = Parts(kind: string, number: string, subtitle: string)

  predicate IsDot(c: char) {
    c == '.'
  }

  predicate IsHash(c: char) {
    c == '#'
  }

  /** A dot and digits, when both follow. */
  function FractionOf(text: string): (fraction: string)
    ensures fraction <= text
  {
    if StartsWith(text, IsDot) && StartsWith(text[1..], IsDigit) then
      assert text == [text[0]] + text[1..];
      [text[0]] + TakeWhile(text[1..], IsDigit)
    else
      ""
  }

  function NumberOf(text: string): (number: string)
    ensures number <= text
  {
    var whole := TakeWhile(text, IsDigit);
    if whole == "" then ""
    else
      var fraction := FractionOf(text[|whole|..]);
      PrefixOfRest(whole, fraction, text);
      whole + fraction
  }

  lemma PrefixOfRest(a: string, b: string, s: string)
    requires a <= s && b <= s[|a|..]
    ensures a + b <= s
  {
    assert s == a + s[|a|..];
  }

  /** What follows the label, up to the number. */
  function NumberText(afterLabel: string): string {
    DropOne(DropWhile(DropOne(afterLabel, IsDot), IsSpace), IsHash)
  }

  function Subtitle(afterNumber: string): string {
    DropWhile(DropOne(DropWhile(afterNumber, IsSpace), IsSeparator), IsSpace)
  }

  function Scan(title: string): Option<Parts> {
    var kind := LabelOf(title);
    if kind.None? then None
    else
      LabelFits(title);
      var text := NumberText(title[|kind.value|..]);
      var number := NumberOf(text);
      if number == "" then None else Some(Parts(kind.value, number, Subtitle(text[|number|..])))
  }

  lemma LabelFits(title: string)
    ensures LabelOf(title).Some? ==> |LabelOf(title).value| <= |title|
  {
  }

  /** One of the scanner's loops: it stops where the run of characters ends. */
  method Advance(title: string, from: nat, p: char -> bool) returns (cursor: nat)
    requires from <= |title|
    ensures from <= cursor <= |title|
    ensures title[from..cursor] == TakeWhile(title[from..], p)
    ensures title[cursor..] == DropWhile(title[from..], p)
  {
    cursor := from;
    while cursor < |title| && p(title[cursor])
      invariant from <= cursor <= |title|
      invariant forall i :: from <= i < cursor ==> p(title[i])
    {
      cursor := cursor + 1;
    }
    TakeWhileIs(title[from..], p, cursor - from);
    assert title[from..][..cursor - from] == title[from..cursor];
  }

  method SkipToNumber(title: string, from: nat) returns (cursor: nat)
    requires from <= |title|
    ensures from <= cursor <= |title| && title[cursor..] == NumberText(title[from..])
  {
    hide TakeWhile;
    cursor := from;
    if cursor < |title| && title[cursor] == '.' {
      cursor := cursor + 1;
    }
    assert title[cursor..] == DropOne(title[from..], IsDot);
    cursor := Advance(title, cursor, IsSpace);
    ghost var beforeHash := cursor;
    if cursor < |title| && title[cursor] == '#' {
      cursor := cursor + 1;
    }
    assert title[cursor..] == DropOne(title[beforeHash..], IsHash);
  }

  method SkipToSubtitle(title: string, from: nat) returns (cursor: nat)
    requires from <= |title|
    ensures from <= cursor <= |title| && title[cursor..] == Subtitle(title[from..])
  {
    hide TakeWhile;
    cursor := Advance(title, from, IsSpace);
    ghost var beforeSeparator := cursor;
    if cursor < |title| && IsSeparator(title[cursor]) {
      cursor := cursor + 1;
    }
    assert title[cursor..] == DropOne(title[beforeSeparator..], IsSeparator);
    cursor := Advance(title, cursor, IsSpace);
  }

  method CollectionPrefixParts(title: string) returns (parts: Option<Parts>)
    ensures parts == Scan(title)
  {
    hide TakeWhile, LabelOf, NumberText, NumberOf, Subtitle;
    var kind := LabelOf(title);
    if kind.None? {
      return None;
    }
    LabelFits(title);
    var numberStart := SkipToNumber(title, |kind.value|);
    var numberEnd := ScanNumber(title, numberStart);
    if numberEnd == numberStart {
      return None;
    }
    var number := title[numberStart..numberEnd];
    assert title[numberStart..][|number|..] == title[numberEnd..];
    var cursor := SkipToSubtitle(title, numberEnd);
    return Some(Parts(kind.value, number, title[cursor..]));
  }

  method ScanNumber(title: string, numberStart: nat) returns (cursor: nat)
    requires numberStart <= |title|
    ensures numberStart <= cursor <= |title|
    ensures title[numberStart..cursor] == NumberOf(title[numberStart..])
  {
    hide TakeWhile, FractionOf;
    cursor := Advance(title, numberStart, IsDigit);
    ghost var wholeEnd := cursor;
    assert title[numberStart..][wholeEnd - numberStart..] == title[wholeEnd..];
    if cursor == numberStart {
      return;
    }
    cursor := ScanFraction(title, cursor);
    assert title[numberStart..cursor] == title[numberStart..wholeEnd] + title[wholeEnd..cursor];
  }

  method ScanFraction(title: string, from: nat) returns (cursor: nat)
    requires from <= |title|
    ensures from <= cursor <= |title| && title[from..cursor] == FractionOf(title[from..])
  {
    hide TakeWhile;
    cursor := from;
    assert cursor < |title| ==> title[from..][1..] == title[from + 1..];
    if cursor + 1 < |title| && title[cursor] == '.' && IsDigit(title[cursor + 1]) {
      cursor := Advance(title, cursor + 1, IsDigit);
      assert title[from..cursor] == [title[from]] + title[from + 1..cursor];
    }
  }

  // ----- The grammar -----

  /** A title taken apart: label, optional dot, spaces, optional hash, digits, optional
      fraction, spaces, optional separator, spaces, and the rest. */
  datatype Shape = Shape(
    kind: string,
    dot: string,
    gap: string,
    hash: string,
    whole: string,
    fraction: string,
    gapAfter: string,
    separator: string,
    lastGap: string,
    rest: string)

  predicate IsLabel(text: string) {
    Lower(text) in {"volume", "vol", "book", "part"}
  }

  predicate Optional(text: string, p: char -> bool) {
    text == "" || (|text| == 1 && p(text[0]))
  }

  predicate IsFraction(text: string) {
    text == "" || ("." <= text && IsNumeral(text[1..]))
  }

  predicate LeadShape(dot: string, gap: string, hash: string) {
    Optional(dot, IsDot) && AllSpaces(gap) && Optional(hash, IsHash)
  }

  predicate NumberShape(whole: string, fraction: string) {
    IsNumeral(whole) && IsFraction(fraction)
  }

  predicate TailShape(gap: string, separator: string, lastGap: string) {
    AllSpaces(gap) && Optional(separator, IsSeparator) && AllSpaces(lastGap)
  }

  predicate WellFormed(shape: Shape) {
    && IsLabel(shape.kind)
    && LeadShape(shape.dot, shape.gap, shape.hash)
    && NumberShape(shape.whole, shape.fraction)
    && TailShape(shape.gapAfter, shape.separator, shape.lastGap)
  }

  function Tail(shape: Shape): string {
    shape.gapAfter + shape.separator + shape.lastGap + shape.rest
  }

  function AfterLabel(shape: Shape): string {
    shape.dot + (shape.gap + (shape.hash + (shape.whole + (shape.fraction + Tail(shape)))))
  }

  function Text(shape: Shape): string {
    shape.kind + AfterLabel(shape)
  }

  /** No further digit or fraction could follow. */
  predicate NumberEnds(fraction: string, tail: string) {
    && !StartsWith(fraction + tail, IsDigit)
    && (fraction == "" ==> !("." <= tail && StartsWith(tail[1..], IsDigit)))
    && (fraction != "" ==> !StartsWith(tail, IsDigit))
  }

  /** No further space or separator could follow. */
  predicate TailEnds(separator: string, lastGap: string, rest: string) {
    !StartsWith(rest, IsSpace) && (separator == "" ==> lastGap == "" && !StartsWith(rest, IsSeparator))
  }

  /** Every part of the shape is as long as it can be. */
  predicate Maximal(shape: Shape) {
    && NumberEnds(shape.fraction, Tail(shape))
    && TailEnds(shape.separator, shape.lastGap, shape.rest)
  }

  function PartsOf(shape: Shape): Parts {
    Parts(Lower(shape.kind), shape.whole + shape.fraction, shape.rest)
  }

  lemma NotAPrefix(word: string, text: string, i: nat)
    requires i < |word| && i < |text| ==> word[i] != text[i]
    requires i < |word|
    ensures !(word <= text)
  {
  }

  lemma LabelIsRead(kind: string, after: string)
    requires IsLabel(kind)
    requires after != "" ==> after[0] != 'u' && after[0] != 'U'
    ensures LabelOf(kind + after) == Some(Lower(kind))
  {
    LowerAppend(kind, after);
    hide Lower;
    var folded, lower := Lower(kind + after), Lower(kind);
    assert lower <= folded && folded[0] == lower[0];
    if lower == "vol" {
      NotAPrefix("volume", folded, 3);
    } else if lower == "book" {
      NotAPrefix("volume", folded, 0);
      NotAPrefix("vol", folded, 0);
    } else if lower == "part" {
      NotAPrefix("volume", folded, 0);
      NotAPrefix("vol", folded, 0);
      NotAPrefix("book", folded, 0);
    }
  }

  lemma NumberTextIsRead(dot: string, gap: string, hash: string, text: string)
    requires LeadShape(dot, gap, hash) && StartsWith(text, IsDigit)
    ensures NumberText(dot + (gap + (hash + text))) == text
  {
    var afterGap := hash + text;
    var afterDot := gap + afterGap;
    assert afterDot != "" && (if gap != "" then afterDot[0] == gap[0] && gap[0] in gap else afterDot == afterGap);
    assert DropOne(dot + afterDot, IsDot) == afterDot;
    TakeWhileAppend(gap, afterGap, IsSpace);
    assert DropOne(afterGap, IsHash) == text;
  }

  lemma FractionIsRead(fraction: string, tail: string)
    requires IsFraction(fraction) && NumberEnds(fraction, tail)
    ensures FractionOf(fraction + tail) == fraction
  {
    hide TakeWhile;
    if fraction == "" {
      assert fraction + tail == tail;
    } else {
      var digits := fraction[1..];
      assert digits[0] in digits;
      assert fraction == ['.'] + digits && (fraction + tail)[1..] == digits + tail;
      TakeWhileAppend(digits, tail, IsDigit);
    }
  }

  lemma NumberIsRead(whole: string, fraction: string, tail: string)
    requires NumberShape(whole, fraction)
    ensures NumberOf(whole + (fraction + tail)) != ""
    ensures NumberEnds(fraction, tail) ==> NumberOf(whole + (fraction + tail)) == whole + fraction
  {
    hide TakeWhile, FractionOf;
    var after := fraction + tail;
    SomeDigits(whole, after);
    if NumberEnds(fraction, tail) {
      TakeWhileAppend(whole, after, IsDigit);
      assert (whole + after)[|whole|..] == after;
      FractionIsRead(fraction, tail);
    }
  }

  lemma SomeDigits(whole: string, after: string)
    requires IsNumeral(whole)
    ensures TakeWhile(whole + after, IsDigit) != ""
  {
    assert (whole + after)[0] == whole[0] && whole[0] in whole;
  }

  lemma SubtitleIsRead(gap: string, separator: string, lastGap: string, rest: string)
    requires TailShape(gap, separator, lastGap) && TailEnds(separator, lastGap, rest)
    ensures Subtitle(gap + separator + lastGap + rest) == rest
  {
    hide TakeWhile;
    var afterSeparator := lastGap + rest;
    var afterGap := separator + afterSeparator;
    assert gap + separator + lastGap + rest == gap + afterGap;
    if separator == "" {
      assert afterGap == rest && afterSeparator == rest;
    }
    TakeWhileAppend(gap, afterGap, IsSpace);
    assert DropOne(afterGap, IsSeparator) == afterSeparator;
    TakeWhileAppend(lastGap, rest, IsSpace);
  }

  /** Completeness: every title of the shape is accepted, and a maximal shape is read
      back as it is. */
  lemma ShapesAreScanned(shape: Shape)
    requires WellFormed(shape)
    ensures Scan(Text(shape)).Some?
    ensures Maximal(shape) ==> Scan(Text(shape)) == Some(PartsOf(shape))
  {
    hide LabelOf, NumberOf, NumberText, Subtitle, Tail, IsLabel;
    var number := shape.whole + (shape.fraction + Tail(shape));
    assert StartsWith(number, IsDigit) by { assert number[0] == shape.whole[0] && shape.whole[0] in shape.whole; }
    AfterLabelStart(shape);
    LabelIsRead(shape.kind, AfterLabel(shape));
    assert Text(shape)[|shape.kind|..] == AfterLabel(shape);
    NumberTextIsRead(shape.dot, shape.gap, shape.hash, number);
    NumberIsRead(shape.whole, shape.fraction, Tail(shape));
    if Maximal(shape) {
      assert number == (shape.whole + shape.fraction) + Tail(shape);
      assert number[|shape.whole + shape.fraction|..] == Tail(shape);
      TailIsRead(shape);
    }
  }

  lemma TailIsRead(shape: Shape)
    requires WellFormed(shape) && Maximal(shape)
    ensures Subtitle(Tail(shape)) == shape.rest
  {
    SubtitleIsRead(shape.gapAfter, shape.separator, shape.lastGap, shape.rest);
  }

  lemma AfterLabelStart(shape: Shape)
    requires WellFormed(shape)
    ensures AfterLabel(shape) != ""
    ensures AfterLabel(shape)[0] != 'u' && AfterLabel(shape)[0] != 'U'
    ensures AfterLabel(shape)[0] == '.' <==> shape.dot != ""
  {
    var text := shape.whole + (shape.fraction + Tail(shape));
    assert text[0] == shape.whole[0] && shape.whole[0] in shape.whole;
    var hashed := shape.hash + text;
    var gapped := shape.gap + hashed;
    assert gapped[0] == if shape.gap != "" then shape.gap[0] else hashed[0];
    assert shape.gap != "" ==> shape.gap[0] in shape.gap;
  }

  lemma DroppedOne(s: string, p: char -> bool) returns (dropped: string)
    ensures Optional(dropped, p) && s == dropped + DropOne(s, p)
    ensures dropped == "" ==> DropOne(s, p) == s && !StartsWith(s, p)
  {
    dropped := s[..|s| - |DropOne(s, p)|];
  }

  lemma NothingTaken(s: string, p: char -> bool)
    requires !StartsWith(s, p)
    ensures TakeWhile(s, p) == "" && DropWhile(s, p) == s
  {
  }

  lemma LeadParts(afterLabel: string) returns (dot: string, gap: string, hash: string)
    ensures LeadShape(dot, gap, hash)
    ensures afterLabel == dot + (gap + (hash + NumberText(afterLabel)))
  {
    hide TakeWhile, DropOne, DropWhile;
    dot := DroppedOne(afterLabel, IsDot);
    var afterDot := DropOne(afterLabel, IsDot);
    DroppedWhile(afterDot, IsSpace);
    gap := TakeWhile(afterDot, IsSpace);
    hash := DroppedOne(DropWhile(afterDot, IsSpace), IsHash);
  }

  lemma FractionParts(text: string) returns (fraction: string, tail: string)
    requires !StartsWith(text, IsDigit)
    ensures fraction == FractionOf(text) && text == fraction + tail
    ensures IsFraction(fraction) && NumberEnds(fraction, tail)
  {
    hide TakeWhile, DropWhile;
    fraction := FractionOf(text);
    if StartsWith(text, IsDot) && StartsWith(text[1..], IsDigit) {
      DroppedWhile(text[1..], IsDigit);
      tail := DropWhile(text[1..], IsDigit);
      assert text == [text[0]] + text[1..] == fraction + tail;
      assert fraction[1..] == TakeWhile(text[1..], IsDigit);
    } else {
      tail := text;
      assert fraction + tail == tail;
      assert "." <= text ==> IsDot(text[0]);
    }
  }

  lemma NumberParts(text: string) returns (whole: string, fraction: string, tail: string)
    requires NumberOf(text) != ""
    ensures NumberShape(whole, fraction) && NumberOf(text) == whole + fraction
    ensures text == whole + (fraction + tail) && tail == text[|NumberOf(text)|..]
    ensures NumberEnds(fraction, tail)
  {
    hide TakeWhile, FractionOf, NumberEnds, IsFraction;
    whole := TakeWhile(text, IsDigit);
    DroppedWhile(text, IsDigit);
    fraction, tail := FractionParts(DropWhile(text, IsDigit));
    assert text == (whole + fraction) + tail;
    SuffixAfter(whole + fraction, tail);
  }

  lemma SuffixAfter(a: string, b: string)
    ensures (a + b)[|a|..] == b
  {
  }

  lemma TailParts(tail: string) returns (gap: string, separator: string, lastGap: string)
    ensures TailShape(gap, separator, lastGap) && TailEnds(separator, lastGap, Subtitle(tail))
    ensures gap + separator + lastGap + Subtitle(tail) == tail
  {
    hide TakeWhile, DropWhile, DropOne;
    gap := TakeWhile(tail, IsSpace);
    DroppedWhile(tail, IsSpace);
    var afterGap := DropWhile(tail, IsSpace);
    separator := DroppedOne(afterGap, IsSeparator);
    var after := DropOne(afterGap, IsSeparator);
    DroppedWhile(after, IsSpace);
    lastGap := TakeWhile(after, IsSpace);
    assert gap + separator + lastGap + Subtitle(tail) == gap + (separator + (lastGap + Subtitle(tail)));
    if separator == "" {
      NothingTaken(after, IsSpace);
    }
  }

  lemma LabelPrefix(title: string)
    requires LabelOf(title).Some?
    ensures |LabelOf(title).value| <= |title|
    ensures Lower(title[..|LabelOf(title).value|]) == LabelOf(title).value
    ensures IsLabel(title[..|LabelOf(title).value|])
  {
    var n := |LabelOf(title).value|;
    assert title == title[..n] + title[n..];
    LowerAppend(title[..n], title[n..]);
  }

  /** The parts after the label, for any label put before them. */
  lemma AfterLabelParts(kind: string, afterLabel: string) returns (shape: Shape)
    requires IsLabel(kind) && NumberOf(NumberText(afterLabel)) != ""
    ensures WellFormed(shape) && Maximal(shape) && shape.kind == kind && AfterLabel(shape) == afterLabel
    ensures var text := NumberText(afterLabel);
      shape.whole + shape.fraction == NumberOf(text) && shape.rest == Subtitle(text[|NumberOf(text)|..])
  {
    hide IsLabel, NumberOf, NumberText, Subtitle, LeadShape, NumberShape, TailShape, NumberEnds, TailEnds, AfterLabel;
    var dot, gap, hash := LeadParts(afterLabel);
    var whole, fraction, tail := NumberParts(NumberText(afterLabel));
    var gapAfter, separator, lastGap := TailParts(tail);
    shape := Shape(kind, dot, gap, hash, whole, fraction, gapAfter, separator, lastGap, Subtitle(tail));
    TextAssembled(shape, tail, NumberText(afterLabel), afterLabel);
  }

  /** Soundness: an accepted title has the shape, and its parts are those of a maximal
      reading. */
  lemma ScannedTitlesHaveTheShape(title: string) returns (shape: Shape)
    requires Scan(title).Some?
    ensures WellFormed(shape) && Maximal(shape) && Text(shape) == title && Scan(title) == Some(PartsOf(shape))
  {
    hide Scan, LabelOf, IsLabel, NumberOf, NumberText, Subtitle, Lower, WellFormed, Maximal, AfterLabel;
    ScanUnfolds(title);
    var size := |LabelOf(title).value|;
    shape := AfterLabelParts(title[..size], title[size..]);
    assert title == title[..size] + title[size..];
  }

  lemma ScanUnfolds(title: string)
    requires Scan(title).Some?
    ensures LabelOf(title).Some? && |LabelOf(title).value| <= |title|
    ensures var size := |LabelOf(title).value|; var text := NumberText(title[size..]);
      && IsLabel(title[..size]) && Lower(title[..size]) == LabelOf(title).value
      && NumberOf(text) != ""
      && Scan(title) == Some(Parts(LabelOf(title).value, NumberOf(text), Subtitle(text[|NumberOf(text)|..])))
  {
    hide NumberOf, NumberText, Subtitle, IsLabel, LabelOf;
    LabelPrefix(title);
  }

  lemma TextAssembled(shape: Shape, tail: string, number: string, afterLabel: string)
    requires Tail(shape) == tail && number == shape.whole + (shape.fraction + tail)
    requires afterLabel == shape.dot + (shape.gap + (shape.hash + number))
    ensures AfterLabel(shape) == afterLabel
  {
  }

  /** The scanner accepts exactly the titles of the shape. */
  lemma ScannerEqualsGrammar(title: string)
    ensures Scan(title).Some? <==> exists shape :: WellFormed(shape) && Text(shape) == title
    ensures forall shape :: WellFormed(shape) && Maximal(shape) && Text(shape) == title ==>
      Scan(title) == Some(PartsOf(shape))
  {
    hide Scan, WellFormed, Maximal, Text;
    if Scan(title).Some? {
      var shape := ScannedTitlesHaveTheShape(title);
    }
    forall shape | WellFormed(shape) && Text(shape) == title
      ensures Scan(title).Some? && (Maximal(shape) ==> Scan(title) == Some(PartsOf(shape)))
    {
      ShapesAreScanned(shape);
    }
  }
}
