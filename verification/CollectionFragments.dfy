/** Search fragments of collection titles: whitespace is collapsed, titles that only name
    or number a volume are dropped, and the rest is printed in canonical form: the kind of
    label, the number and the subtitle, with one blank between each two. */
module CollectionFragments {
  import opened Decimals
  import opened Results
  import opened CollectionTitles
  import opened Strings

  /** Every run of whitespace as one blank. */
  function Squeeze(s: string): string
    decreases |s|
  {
    if s == "" then ""
    else if IsSpace(s[0]) then " " + Squeeze(DropWhile(s, IsSpace))
    else [s[0]] + Squeeze(s[1..])
  }

  function Collapse(s: string): string {
    Strip(Squeeze(s))
  }

  function Blanked(s: string): string {
    seq(|s|, i requires 0 <= i < |s| => if 'a' <= s[i] <= 'z' || IsDigit(s[i]) then s[i] else ' ')
  }

  /** The title's words in lower case, letters and digits only. */
  function Words(title: string): string {
    Collapse(Blanked(Lower(title)))
  }

  const GENERIC_TITLES := {
    "gn", "graphic novel", "hardcover", "hc", "hc tpb", "issue", "ogn", "original graphic novel", "sc", "softcover",
    "tpb", "trade paperback", "vol", "volume"
  }

  const NUMBER_HEADS := {
    "", "issue", "no", "no.", "number", "#", "vol", "vol.", "volume", "volume.", "book", "part"
  }

  predicate IsNumberText(text: string) {
    var number := DropOne(DropWhile(text, IsSpace), IsHash);
    number != "" && NumberOf(number) == number
  }

  /** Whether the title is nothing but a number, with or without a word before it. */
  predicate NumberOnly(title: string) {
    exists head :: head in NUMBER_HEADS && head <= Lower(title) && |head| <= |title|
                   && IsNumberText(title[|head|..])
  }

  function CanonicalLabel(kind: string): string {
    if "vol" <= kind then "Vol" else if kind == "book" then "Book" else "Part"
  }

  function Canonical(parts: Parts): string {
    CanonicalLabel(parts.kind) + " " + parts.number + " " + parts.subtitle
  }

  function TextOf(value: Option<string>): string {
    if value.Some? then value.value else ""
  }

  function Fragment(value: Option<string>): Option<string> {
    var title := Collapse(TextOf(value));
    if title == "" || Words(title) in GENERIC_TITLES || NumberOnly(title) then None
    else
      var parts := Scan(title);
      if parts.None? then Some(title)
      else
        var subtitle := Strip(parts.value.subtitle);
        if subtitle == "" then None else Some(Canonical(parts.value.(subtitle := subtitle)))
  }

  function TitleNumber(value: Option<string>): Option<string> {
    var title := Collapse(TextOf(value));
    if title == "" || Scan(title).None? then None else Some(Scan(title).value.number)
  }

  // ----- Collapsed text -----

  /** No whitespace at either end, and only single blanks between. */
  predicate IsCollapsed(text: string) {
    forall i :: 0 <= i < |text| && IsSpace(text[i]) ==>
      text[i] == ' ' && 0 < i < |text| - 1 && !IsSpace(text[i + 1])
  }

  predicate IsSqueezed(text: string) {
    forall i :: 0 <= i < |text| && IsSpace(text[i]) ==> text[i] == ' ' && (i + 1 < |text| ==> !IsSpace(text[i + 1]))
  }

  lemma {:induction false} SqueezeIsSqueezed(s: string)
    ensures IsSqueezed(Squeeze(s))
    ensures StartsWith(Squeeze(s), IsSpace) <==> StartsWith(s, IsSpace)
    decreases |s|
  {
    if s != "" {
      var rest := if IsSpace(s[0]) then DropWhile(s, IsSpace) else s[1..];
      if IsSpace(s[0]) {
        TakeWhileTakes(s, IsSpace);
      }
      SqueezeIsSqueezed(rest);
    }
  }

  lemma {:induction false} SqueezeSqueezed(s: string)
    requires IsSqueezed(s)
    ensures Squeeze(s) == s
  {
    if s != "" {
      assert forall i :: 0 <= i < |s| - 1 ==> s[1..][i] == s[i + 1];
      SqueezeSqueezed(s[1..]);
      if IsSpace(s[0]) {
        TakeWhileIs(s, IsSpace, 1);
      }
      assert s == [s[0]] + s[1..];
    }
  }

  lemma PartIsSqueezed(s: string, from: nat, end: nat)
    requires IsSqueezed(s) && from <= end <= |s|
    ensures IsSqueezed(s[from..end])
  {
    assert forall i :: 0 <= i < end - from ==> s[from..end][i] == s[from + i];
  }

  lemma StripSqueezed(s: string)
    requires IsSqueezed(s)
    ensures IsCollapsed(Strip(s))
  {
    hide IsSqueezed, TakeWhile;
    var t := DropWhile(s, IsSpace);
    TakeWhileTakes(s, IsSpace);
    StrippedRight(t);
    var n := |TakeWhile(s, IsSpace)|;
    assert Strip(s) == s[n..n + |Strip(s)|];
    PartIsSqueezed(s, n, n + |Strip(s)|);
  }

  /** Collapsing gives collapsed text, and leaves collapsed text alone. */
  lemma CollapseIsCollapsed(s: string)
    ensures IsCollapsed(Collapse(s))
    ensures IsCollapsed(s) ==> Collapse(s) == s
  {
    SqueezeIsSqueezed(s);
    StripSqueezed(Squeeze(s));
    if IsCollapsed(s) {
      SqueezeSqueezed(s);
    }
  }

  lemma DropKeepsVisible(s: string, c: char)
    requires c in s && !IsSpace(c)
    ensures c in DropWhile(s, IsSpace)
  {
    TakeWhileTakes(s, IsSpace);
    assert s == TakeWhile(s, IsSpace) + DropWhile(s, IsSpace);
  }

  lemma {:induction false} SqueezeKeepsVisible(s: string, c: char)
    requires c in s && !IsSpace(c)
    ensures c in Squeeze(s)
    decreases |s|
  {
    if IsSpace(s[0]) {
      DropKeepsVisible(s, c);
      SqueezeKeepsVisible(DropWhile(s, IsSpace), c);
    } else if s[0] != c {
      assert s == [s[0]] + s[1..];
      SqueezeKeepsVisible(s[1..], c);
    }
  }

  lemma CollapseKeepsVisible(s: string, c: char)
    requires c in s && !IsSpace(c)
    ensures c in Collapse(s)
  {
    SqueezeKeepsVisible(s, c);
    DropKeepsVisible(Squeeze(s), c);
    StrippedRight(DropWhile(Squeeze(s), IsSpace));
  }

  // ----- Numbered titles are not generic -----

  lemma WordsKeepDigits(title: string, c: char)
    requires c in title && IsDigit(c)
    ensures c in Words(title)
  {
    var lower := Lower(title);
    var i :| 0 <= i < |title| && title[i] == c;
    assert lower[i] == c && Blanked(lower)[i] == c;
    CollapseKeepsVisible(Blanked(lower), c);
  }

  predicate NoDigit(s: string) {
    forall c :: c in s ==> !IsDigit(c)
  }

  lemma GenericTitlesHaveNoDigit()
    ensures forall title :: title in GENERIC_TITLES ==> NoDigit(title)
  {
    FormatWords();
    PhraseWords();
    ShortWords();
  }

  lemma ShortWords()
    ensures NoDigit("gn") && NoDigit("hc") && NoDigit("hc tpb") && NoDigit("ogn") && NoDigit("sc") && NoDigit("tpb")
      && NoDigit("vol")
  {
  }

  lemma FormatWords()
    ensures NoDigit("hardcover") && NoDigit("issue") && NoDigit("softcover") && NoDigit("volume")
  {
  }

  lemma PhraseWords()
    ensures NoDigit("graphic novel") && NoDigit("original graphic novel") && NoDigit("trade paperback")
  {
  }

  lemma NumberedIsNotGeneric(shape: Shape)
    requires WellFormed(shape)
    ensures Words(Text(shape)) !in GENERIC_TITLES
  {
    var digit := shape.whole[0];
    assert digit in shape.whole && IsDigit(digit);
    assert digit in Text(shape) by {
      assert Text(shape)[|shape.kind| + |shape.dot| + |shape.gap| + |shape.hash|] == digit;
    }
    WordsKeepDigits(Text(shape), digit);
    GenericTitlesHaveNoDigit();
  }

  // ----- A number alone leaves no subtitle -----

  lemma HeadIsLabel(head: string, shape: Shape)
    requires WellFormed(shape) && head in NUMBER_HEADS && head <= Lower(Text(shape))
    ensures head == "" || head == Lower(shape.kind)
      || (head == Lower(shape.kind) + "." && shape.dot == ".")
      || (head == "vol" && Lower(shape.kind) == "volume")
  {
    var lower, after := Lower(shape.kind), AfterLabel(shape);
    LowerAppend(shape.kind, after);
    AfterLabelStart(shape);
    LabelIsNotFollowed(head, lower, Lower(after));
    if head == lower + "." {
      assert Lower(after)[0] == '.';
      assert after[0] == '.';
    }
  }

  /** Which number words can start a text that begins with a label. */
  lemma LabelIsNotFollowed(head: string, lower: string, after: string)
    requires head in NUMBER_HEADS && lower in {"volume", "vol", "book", "part"}
    requires head <= lower + after && after != "" && after[0] != 'u'
    ensures head == "" || head == lower || (head == "vol" && lower == "volume")
      || (head == lower + "." && after[0] == '.')
  {
    var text := lower + after;
    assert forall i :: 0 <= i < |head| ==> head[i] == text[i];
    assert "vol" + "." == "vol." && "volume" + "." == "volume.";
    assert head != "" ==> head[0] == lower[0];
    assert head == lower + "." ==> head[|lower|] == after[0];
    assert "volume"[3] == "volume."[3] == 'u' && "vol."[3] == '.';
    assert |head| > 3 && lower == "vol" ==> head[3] == after[0];
    assert |head| > 3 && lower == "volume" ==> head[3] == lower[3];
  }

  lemma NotNumberText(text: string)
    requires text != "" && !IsSpace(text[0]) && text[0] != '#' && !IsDigit(text[0])
    ensures !IsNumberText(text)
  {
    TakeWhileIs(text, IsSpace, 0);
    TakeWhileIs(text, IsDigit, 0);
  }

  lemma SpacedNumberText(gap: string, hash: string, whole: string, fraction: string, tail: string)
    requires LeadShape("", gap, hash) && NumberShape(whole, fraction) && NumberEnds(fraction, tail)
    requires IsNumberText(gap + (hash + (whole + (fraction + tail))))
    ensures tail == ""
  {
    hide TakeWhile, NumberOf, NumberEnds;
    var number := whole + (fraction + tail);
    assert StartsWith(number, IsDigit) by { assert number[0] == whole[0] && whole[0] in whole; }
    var text := gap + (hash + number);
    NumberTextIsRead("", gap, hash, number);
    assert "" + text == text;
    assert text[0] == if gap != "" then gap[0] else if hash != "" then hash[0] else whole[0];
    assert gap != "" ==> gap[0] in gap;
    assert whole[0] in whole;
    assert DropOne(text, IsDot) == text;
    NumberIsRead(whole, fraction, tail);
    assert |number| == |whole| + |fraction| + |tail|;
  }

  /** A title that is a number and nothing else has nothing after the number. */
  lemma NumberOnlyHasNoTail(shape: Shape)
    requires WellFormed(shape) && Maximal(shape)
    ensures NumberOnly(Text(shape)) ==> Tail(shape) == ""
  {
    hide Text, Lower, IsNumberText, WellFormed, Maximal, Tail;
    if NumberOnly(Text(shape)) {
      var title := Text(shape);
      var head :| head in NUMBER_HEADS && head <= Lower(title) && IsNumberText(title[|head|..]);
      HeadIsLabel(head, shape);
      LabelText(shape);
      if head == "" {
        assert title[0..] == title;
        LetterIsNoNumber(title);
      } else if head == "vol" && |shape.kind| == 6 {
        LetterIsNoNumber(title[3..]);
      } else {
        NumberAfterLabel(shape, |head|);
      }
    }
  }

  lemma LetterIsNoNumber(text: string)
    requires text != "" && IsLetter(text[0])
    ensures !IsNumberText(text)
  {
    NotNumberText(text);
  }

  lemma NumberAfterLabel(shape: Shape, size: nat)
    requires WellFormed(shape) && Maximal(shape)
    requires size == |shape.kind| || (size == |shape.kind| + 1 && shape.dot == ".")
    requires size <= |Text(shape)|
    ensures IsNumberText(Text(shape)[size..]) ==> Tail(shape) == ""
  {
    hide IsNumberText, Tail, IsLabel;
    var after := AfterLabel(shape);
    var undotted := shape.gap + (shape.hash + (shape.whole + (shape.fraction + Tail(shape))));
    AfterLabelStart(shape);
    if size == |shape.kind| {
      assert Text(shape)[size..] == after;
      if shape.dot != "" {
        NotNumberText(after);
      }
      assert shape.dot == "" ==> after == undotted;
    } else {
      assert Text(shape)[size..] == undotted;
    }
    if IsNumberText(undotted) {
      UndottedNumberText(shape);
    }
  }

  lemma UndottedNumberText(shape: Shape)
    requires WellFormed(shape) && Maximal(shape)
    requires IsNumberText(shape.gap + (shape.hash + (shape.whole + (shape.fraction + Tail(shape)))))
    ensures Tail(shape) == ""
  {
    SpacedNumberText(shape.gap, shape.hash, shape.whole, shape.fraction, Tail(shape));
  }

  lemma LabelText(shape: Shape)
    requires WellFormed(shape)
    ensures var title := Text(shape);
      && |title| > |shape.kind| >= 3 && IsLetter(title[0])
      && |Lower(shape.kind)| == |shape.kind|
      && (Lower(shape.kind) == "volume" <==> |shape.kind| == 6)
      && (|shape.kind| == 6 ==> IsLetter(title[3]))
  {
    AfterLabelStart(shape);
    var lower := Lower(shape.kind);
    assert lower[0] == LowerChar(shape.kind[0]);
    assert |lower| == 6 ==> lower[3] == LowerChar(shape.kind[3]);
  }

  // ----- Main results -----

  lemma SuffixIsCollapsed(text: string, from: nat)
    requires IsCollapsed(text) && from <= |text| && !StartsWith(text[from..], IsSpace)
    ensures IsCollapsed(text[from..])
  {
    assert forall i :: 0 <= i < |text| - from ==> text[from..][i] == text[from + i];
  }

  lemma SubtitleIsCollapsed(shape: Shape)
    requires WellFormed(shape) && Maximal(shape) && IsCollapsed(Text(shape))
    ensures IsCollapsed(shape.rest) && Strip(shape.rest) == shape.rest
  {
    hide WellFormed, Maximal, IsCollapsed, StartsWith;
    assert !StartsWith(shape.rest, IsSpace) by { MaximalRest(shape); }
    var from := |Text(shape)| - |shape.rest|;
    assert Text(shape)[from..] == shape.rest;
    SuffixIsCollapsed(Text(shape), from);
  }

  lemma MaximalRest(shape: Shape)
    requires Maximal(shape)
    ensures !StartsWith(shape.rest, IsSpace)
  {
  }

  lemma KindsAreSpelledOut(shape: Shape)
    requires WellFormed(shape)
    ensures var kind := Lower(shape.kind);
      CanonicalLabel(kind) == if kind == "book" then "Book" else if kind == "part" then "Part" else "Vol"
  {
    var kind := Lower(shape.kind);
    assert kind == "vol" || kind == "volume" || kind == "book" || kind == "part";
    assert "vol" <= "volume" && "book"[0] != 'v' && "part"[0] != 'v';
  }

  lemma SpellingsAreCanonical(shape: Shape)
    requires WellFormed(shape) && Maximal(shape) && IsCollapsed(Text(shape))
    ensures Fragment(Some(Text(shape))) == if shape.rest == "" then None else Some(Canonical(PartsOf(shape)))
    ensures TitleNumber(Some(Text(shape))) == Some(shape.whole + shape.fraction)
  {
    hide WellFormed, Maximal, IsCollapsed, NumberOnly, Scan, Collapse, Words, Strip, Canonical;
    var title := Text(shape);
    CollapseIsCollapsed(title);
    NumberedIsNotGeneric(shape);
    ShapesAreScanned(shape);
    SubtitleIsCollapsed(shape);
    LabelText(shape);
    if NumberOnly(title) {
      NumberOnlyHasNoTail(shape);
    }
  }

  /** Every spelling of a numbered title gives the same fragment: it depends on the kind
      of label, the number and the subtitle alone, and is missing exactly without a
      subtitle. */
  lemma SpellingsAgree(shape: Shape)
    requires WellFormed(shape) && Maximal(shape) && IsCollapsed(Text(shape))
    ensures Fragment(Some(Text(shape)))
         == if shape.rest == "" then None
            else Some((if Lower(shape.kind) == "book" then "Book" else if Lower(shape.kind) == "part" then "Part"
                       else "Vol") + " " + (shape.whole + shape.fraction) + " " + shape.rest)
    ensures TitleNumber(Some(Text(shape))) == Some(shape.whole + shape.fraction)
  {
    SpellingsAreCanonical(shape);
    KindsAreSpelledOut(shape);
    hide WellFormed, Maximal, IsCollapsed, Fragment, TitleNumber, CanonicalLabel, Text;
  }

  /** The shape of canonical text: a separator the subtitle begins with is read as one. */
  function CanonicalShape(kind: string, whole: string, fraction: string, subtitle: string): Shape {
    if StartsWith(subtitle, IsSeparator) then
      Shape(kind, "", " ", "", whole, fraction, " ", subtitle[..1], TakeWhile(subtitle[1..], IsSpace),
            DropWhile(subtitle[1..], IsSpace))
    else
      Shape(kind, "", " ", "", whole, fraction, " ", "", "", subtitle)
  }

  lemma CanonicalTail(subtitle: string, shape: Shape)
    requires !StartsWith(subtitle, IsSpace)
    requires shape == CanonicalShape(shape.kind, shape.whole, shape.fraction, subtitle)
    ensures Tail(shape) == " " + subtitle
    ensures TailShape(shape.gapAfter, shape.separator, shape.lastGap)
    ensures TailEnds(shape.separator, shape.lastGap, shape.rest)
    ensures shape.rest == subtitle <==> !StartsWith(subtitle, IsSeparator)
  {
    hide TakeWhile;
    if StartsWith(subtitle, IsSeparator) {
      var after := subtitle[1..];
      DroppedWhile(after, IsSpace);
      assert subtitle == subtitle[..1] + after;
      assert |shape.rest| < |subtitle|;
    }
  }

  lemma CanonicalShapeFits(kind: string, whole: string, fraction: string, subtitle: string)
    requires IsLabel(kind) && NumberShape(whole, fraction) && !StartsWith(subtitle, IsSpace)
    ensures var shape := CanonicalShape(kind, whole, fraction, subtitle);
      && WellFormed(shape) && Maximal(shape) && Text(shape) == kind + " " + (whole + fraction) + " " + subtitle
      && (shape.rest == subtitle <==> !StartsWith(subtitle, IsSeparator))
  {
    hide IsLabel, NumberShape, TakeWhile, TailShape, TailEnds, NumberEnds, StartsWith, Tail;
    var shape := CanonicalShape(kind, whole, fraction, subtitle);
    CanonicalTail(subtitle, shape);
    CanonicalNumberEnds(whole, fraction, subtitle);
    assert kind + " " + (whole + fraction) + (" " + subtitle) == kind + " " + (whole + fraction) + " " + subtitle;
  }

  lemma CanonicalNumberEnds(whole: string, fraction: string, subtitle: string)
    requires NumberShape(whole, fraction)
    ensures NumberEnds(fraction, " " + subtitle)
  {
    assert (fraction + (" " + subtitle))[0] == if fraction == "" then ' ' else '.';
  }

  lemma JoinedIsCollapsed(a: string, b: string)
    requires IsCollapsed(a) && IsCollapsed(b) && a != "" && b != ""
    ensures IsCollapsed(a + " " + b)
  {
    var text := a + " " + b;
    assert forall i :: 0 <= i < |b| ==> text[|a| + 1 + i] == b[i];
    assert forall i :: 0 <= i < |a| ==> text[i] == a[i];
    assert !IsSpace(a[|a| - 1]) && !IsSpace(b[0]);
  }

  lemma NumberIsCollapsed(whole: string, fraction: string)
    requires NumberShape(whole, fraction)
    ensures IsCollapsed(whole + fraction)
  {
    var number := whole + fraction;
    forall i | 0 <= i < |number| ensures !IsSpace(number[i]) {
      if i < |whole| {
        assert number[i] == whole[i] && whole[i] in whole;
      } else if i > |whole| {
        assert number[i] == fraction[1..][i - |whole| - 1] && fraction[1..][i - |whole| - 1] in fraction[1..];
      }
    }
  }

  lemma CanonicalText(shape: Shape) returns (printed: Shape)
    requires WellFormed(shape) && Maximal(shape) && IsCollapsed(Text(shape)) && shape.rest != ""
    ensures WellFormed(printed) && Maximal(printed) && Text(printed) == Canonical(PartsOf(shape))
    ensures IsCollapsed(Text(printed))
    ensures CanonicalLabel(Lower(printed.kind)) == printed.kind
    ensures CanonicalLabel(Lower(shape.kind)) == printed.kind
    ensures printed.whole == shape.whole && printed.fraction == shape.fraction
    ensures printed.rest == shape.rest <==> !StartsWith(shape.rest, IsSeparator)
  {
    var kind := CanonicalLabel(Lower(shape.kind));
    CanonicalLabels(shape.kind);
    hide IsLabel, IsCollapsed, StartsWith, Lower, CanonicalLabel, NumberShape, TailShape, LeadShape;
    hide NumberEnds, Tail;
    SubtitleIsCollapsed(shape);
    MaximalRest(shape);
    var number := shape.whole + shape.fraction;
    NumberIsCollapsed(shape.whole, shape.fraction);
    assert number != "" by { WholeIsNotEmpty(shape); }
    JoinedIsCollapsed(kind, number);
    JoinedIsCollapsed(kind + " " + number, shape.rest);
    hide CanonicalShape;
    CanonicalShapeFits(kind, shape.whole, shape.fraction, shape.rest);
    printed := CanonicalShape(kind, shape.whole, shape.fraction, shape.rest);
    CanonicalShapeParts(kind, shape.whole, shape.fraction, shape.rest);
  }

  lemma WholeIsNotEmpty(shape: Shape)
    requires WellFormed(shape)
    ensures shape.whole != ""
  {
  }

  lemma CanonicalShapeParts(kind: string, whole: string, fraction: string, subtitle: string)
    ensures var shape := CanonicalShape(kind, whole, fraction, subtitle);
      shape.kind == kind && shape.whole == whole && shape.fraction == fraction
  {
  }

  lemma CanonicalLabels(kind: string)
    requires IsLabel(kind)
    ensures var canonical := CanonicalLabel(Lower(kind));
      && IsLabel(canonical) && canonical != "" && IsCollapsed(canonical)
      && CanonicalLabel(Lower(canonical)) == canonical
  {
    hide Lower, IsCollapsed;
    var lower := Lower(kind);
    assert lower == "volume" ==> lower[..3] == "vol";
    if "vol" <= lower {
      LowerOf("Vol", "vol");
      assert IsCollapsed("Vol") by { WordIsCollapsed("Vol"); }
    } else if lower == "book" {
      LowerOf("Book", "book");
      assert IsCollapsed("Book") by { WordIsCollapsed("Book"); }
    } else {
      LowerOf("Part", "part");
      assert IsCollapsed("Part") by { WordIsCollapsed("Part"); }
    }
  }

  lemma WordIsCollapsed(word: string)
    requires forall i :: 0 <= i < |word| ==> !IsSpace(word[i])
    ensures IsCollapsed(word)
  {
  }

  lemma LowerOf(text: string, lower: string)
    requires |text| == |lower| && forall i :: 0 <= i < |text| ==> lower[i] == LowerChar(text[i])
    ensures Lower(text) == lower
  {
  }

  /** Taking a fragment of a fragment changes nothing exactly when the title has no number
      prefix or its subtitle does not itself begin with a separator. */
  lemma FragmentIsFixedExactly(value: Option<string>)
    ensures var parts := Scan(Collapse(TextOf(value)));
      Fragment(value).Some? ==>
        (Fragment(Fragment(value)) == Fragment(value) <==>
           parts.None? || !StartsWith(parts.value.subtitle, IsSeparator))
  {
    hide Words, NumberOnly, Scan, IsCollapsed, WellFormed, Maximal, Text, Canonical, Collapse, StartsWith, TextOf;
    var title := Collapse(TextOf(value));
    CollapseIsCollapsed(TextOf(value));
    if Fragment(value).Some? && Scan(title).Some? {
      var shape := ScannedTitlesHaveTheShape(title);
      SpellingsAreCanonical(shape);
      FragmentOfCollapsed(value);
      var printed := CanonicalText(shape);
      SpellingsAreCanonical(printed);
      TextOfSome(title);
      CanonicalDiffers(PartsOf(printed), PartsOf(shape));
    } else if Fragment(value).Some? {
      CollapseIsCollapsed(title);
      TextOfSome(title);
    }
  }

  lemma FragmentOfCollapsed(value: Option<string>)
    ensures Fragment(Some(Collapse(TextOf(value)))) == Fragment(value)
    ensures TitleNumber(Some(Collapse(TextOf(value)))) == TitleNumber(value)
  {
    hide Words, NumberOnly, Scan, Collapse, Canonical, Strip, IsCollapsed;
    CollapseIsCollapsed(TextOf(value));
    CollapseIsCollapsed(Collapse(TextOf(value)));
  }

  lemma TextOfSome(text: string)
    ensures TextOf(Some(text)) == text
  {
  }

  lemma CanonicalDiffers(a: Parts, b: Parts)
    requires CanonicalLabel(a.kind) == CanonicalLabel(b.kind) && a.number == b.number
    ensures Canonical(a) == Canonical(b) <==> a.subtitle == b.subtitle
  {
    var lead := CanonicalLabel(a.kind) + " " + a.number + " ";
    assert Canonical(a) == lead + a.subtitle && Canonical(b) == lead + b.subtitle;
    assert (lead + a.subtitle)[|lead|..] == a.subtitle && (lead + b.subtitle)[|lead|..] == b.subtitle;
  }

  /** A fragment always keeps the title's number. */
  lemma FragmentKeepsNumber(value: Option<string>)
    ensures Fragment(value).Some? ==> TitleNumber(Fragment(value)) == TitleNumber(value)
  {
    hide Words, NumberOnly, Scan, IsCollapsed, WellFormed, Maximal, Text, Canonical, Collapse, StartsWith, TextOf;
    var title := Collapse(TextOf(value));
    CollapseIsCollapsed(TextOf(value));
    if Fragment(value).Some? && Scan(title).Some? {
      var shape := ScannedTitlesHaveTheShape(title);
      SpellingsAreCanonical(shape);
      FragmentOfCollapsed(value);
      var printed := CanonicalText(shape);
      SpellingsAreCanonical(printed);
    } else if Fragment(value).Some? {
      CollapseIsCollapsed(title);
      TextOfSome(title);
    }
  }

  /** "Vol 1: - x" takes two passes to lose its separators. */
  lemma SeparatorsTakeTwoPasses()
    ensures Fragment(Some("Vol 1: - x")) == Some("Vol 1 - x") && Fragment(Some("Vol 1 - x")) == Some("Vol 1 x")
  {
    hide Fragment;
    FirstPass();
    SecondPass();
  }

  lemma FirstPass()
    ensures Fragment(Some("Vol 1: - x")) == Some("Vol 1 - x")
  {
    hide Fragment;
    assert IsCollapsed("Vol 1: - x");
    assert "Vol 1: - x" == "Vol 1" + ("" + ":" + " " + "- x");
    VolumeOne("Vol 1: - x", "", ":", " ", "- x");
    assert "Vol 1 " + "- x" == "Vol 1 - x";
  }

  lemma SecondPass()
    ensures Fragment(Some("Vol 1 - x")) == Some("Vol 1 x")
  {
    hide Fragment;
    assert IsCollapsed("Vol 1 - x");
    assert "Vol 1 - x" == "Vol 1" + (" " + "-" + " " + "x");
    VolumeOne("Vol 1 - x", " ", "-", " ", "x");
    assert "Vol 1 " + "x" == "Vol 1 x";
  }

  lemma VolumeOne(title: string, gap: string, separator: string, lastGap: string, rest: string)
    requires TailShape(gap, separator, lastGap) && TailEnds(separator, lastGap, rest)
    requires NumberEnds("", gap + separator + lastGap + rest)
    requires rest != "" && IsCollapsed(title) && title == "Vol 1" + (gap + separator + lastGap + rest)
    ensures Fragment(Some(title)) == Some("Vol 1 " + rest)
  {
    var shape := Shape("Vol", "", " ", "", "1", "", gap, separator, lastGap, rest);
    assert Tail(shape) == gap + separator + lastGap + rest;
    hide Fragment, IsCollapsed, TailShape, TailEnds, NumberEnds, Tail;
    VolumeText(shape, title);
    LowerOf("Vol", "vol");
    assert LeadShape("", " ", "") && NumberShape("1", "");
    SpellingsAreCanonical(shape);
    VolumePrinted(shape);
  }

  lemma VolumePrinted(shape: Shape)
    requires Lower(shape.kind) == "vol" && shape.whole == "1" && shape.fraction == ""
    ensures Canonical(PartsOf(shape)) == "Vol 1 " + shape.rest
  {
    assert "1" + "" == "1" && "Vol" + " " + "1" + " " == "Vol 1 ";
  }

  lemma VolumeText(shape: Shape, title: string)
    requires shape.kind == "Vol" && shape.dot == "" && shape.gap == " " && shape.hash == "" && shape.whole == "1"
    requires shape.fraction == "" && title == "Vol 1" + Tail(shape)
    ensures Text(shape) == title
  {
    hide Tail;
    assert "" + Tail(shape) == Tail(shape);
    var number := "1" + Tail(shape);
    assert "" + number == number && "" + (" " + number) == " " + number;
    assert "Vol" + (" " + ("1" + Tail(shape))) == "Vol 1" + Tail(shape);
  }

  /** A one-word title is kept as it is unless it only names a kind of book. */
  lemma OneWordTitles(word: string)
    requires word != "" && AllLetters(word)
    ensures Fragment(Some(word))
         == if Lower(word) in GENERIC_TITLES then None else Some(word)
  {
    LowerLetters(word);
    WordsOfOneWord(word);
    WordIsOneWord(word);
    WordIsOneWord(Lower(word));
    WordHasNoNumber(word);
    hide Words, NumberOnly, Scan, Lower;
  }

  lemma WordIsOneWord(word: string)
    requires word != "" && AllLetters(word)
    ensures Collapse(word) == word
  {
    assert forall i :: 0 <= i < |word| ==> word[i] in word;
    CollapseIsCollapsed(word);
  }

  lemma WordsOfOneWord(word: string)
    requires word != "" && AllLetters(word)
    ensures Words(word) == Lower(word)
  {
    LowerLetters(word);
    var lower := Lower(word);
    assert forall i :: 0 <= i < |word| ==> word[i] in word && lower[i] == LowerChar(word[i]);
    assert Blanked(lower) == lower;
    WordIsOneWord(lower);
  }

  lemma WordHasNoNumber(word: string)
    requires word != "" && AllLetters(word)
    ensures !NumberOnly(word) && Scan(word).None?
  {
    assert forall i :: 0 <= i < |word| ==> word[i] in word;
    forall i | 0 <= i <= |word| ensures NumberOf(word[i..]) == "" && !IsNumberText(word[i..]) {
      var rest := word[i..];
      assert rest != "" ==> rest[0] == word[i];
      assert !StartsWith(rest, IsSpace) && !StartsWith(rest, IsHash) && !StartsWith(rest, IsDigit);
      NothingTaken(rest, IsSpace);
      NothingTaken(rest, IsDigit);
    }
    var kind := LabelOf(word);
    if kind.Some? {
      LabelFits(word);
      var rest := word[|kind.value|..];
      assert rest != "" ==> rest[0] == word[|kind.value|];
      NothingTaken(rest, IsSpace);
      assert DropOne(rest, IsDot) == rest && NumberText(rest) == rest;
    }
  }
}
