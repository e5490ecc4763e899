/** Candidate identifiers: the page path printed in unpadded base64url (section 5 of
    RFC 4648), and the lenient decoder that reads identifiers back. */
module GetComicsIdentity {
  import opened Results
  import opened Sequences
  import Utf8

  type Byte = Utf8.Byte
  type Sextet = d: int | 0 <= d < 64

  const PREFIX := "getcomics:"
  const BASE_URL := "https://getcomics.org"
  const MAX_ENCODED := 480
  const MAX_IDENTIFIER := 500

  /** NotAscii stands for the ValueError the decoder raises and resolve does not catch. */
  datatype Failure = LayoutChanged | CandidateNotFound | NotAscii

  /** Text to bytes and back; None stands for undecodable bytes. */
  datatype Charset = Charset(encode: string -> seq<Byte>, decode: seq<Byte> -> Option<string>)

  const UTF8 := Charset(Utf8.Encode, Utf8.Decode)

  ghost predicate Lawful(utf8: Charset) {
    forall text: string :: utf8.decode(utf8.encode(text)) == Some(text)
  }

  function Symbol(d: Sextet): char {
    if d < 26 then ('A' as int + d) as char
    else if d < 52 then ('a' as int + d - 26) as char
    else if d < 62 then ('0' as int + d - 52) as char
    else if d == 62 then '-'
    else '_'
  }

  /** The value of a character; the standard alphabet's two symbols are read as well. */
  function SymbolValue(c: char): Option<Sextet> {
    if 'A' <= c <= 'Z' then Some(c as int - 'A' as int)
    else if 'a' <= c <= 'z' then Some(c as int - 'a' as int + 26)
    else if '0' <= c <= '9' then Some(c as int - '0' as int + 52)
    else if c == '-' || c == '+' then Some(62)
    else if c == '_' || c == '/' then Some(63)
    else None
  }

  function Quad(a: Byte, b: Byte, c: Byte): (quad: string)
    ensures |quad| == 4 && IsAscii(quad)
  {
    [Symbol(a / 4), Symbol(a % 4 * 16 + b / 16), Symbol(b % 16 * 4 + c / 64), Symbol(c % 64)]
  }

  /** The symbols of the last one or two bytes. */
  function Tail(bytes: seq<Byte>): (tail: string)
    requires |bytes| < 3
    ensures |tail| == (if |bytes| == 0 then 0 else |bytes| + 1) && IsAscii(tail)
  {
    if |bytes| == 0 then ""
    else if |bytes| == 1 then [Symbol(bytes[0] / 4), Symbol(bytes[0] % 4 * 16)]
    else [Symbol(bytes[0] / 4), Symbol(bytes[0] % 4 * 16 + bytes[1] / 16), Symbol(bytes[1] % 16 * 4)]
  }

  /** Base64url text with its padding stripped. */
  function Encode(bytes: seq<Byte>): string {
    if |bytes| < 3 then Tail(bytes) else Quad(bytes[0], bytes[1], bytes[2]) + Encode(bytes[3..])
  }

  /** The decoder between two characters: its place in a group of four, the bits left
      over, and the pad characters just seen. */
  datatype Decoding = Decoding(place: int, left: int, pads: nat, bytes: seq<Byte>, ended: bool)

  /** One more than the largest value left over at a place of a group. */
  function Room(place: int): int {
    if place == 1 then 64 else if place == 2 then 16 else if place == 3 then 4 else 1
  }

  ghost predicate ValidDecoding(state: Decoding) {
    && 0 <= state.place < 4
    && 0 <= state.left < Room(state.place)
  }

  function DecodeChar(state: Decoding, c: char): (next: Decoding)
    requires ValidDecoding(state)
    ensures ValidDecoding(next)
  {
    if state.ended then state
    else if c == '=' then
      if state.place >= 2 then
        if state.place + state.pads + 1 >= 4 then state.(ended := true) else state.(pads := state.pads + 1)
      else state
    else if SymbolValue(c).None? then state
    else
      var d := SymbolValue(c).value;
      if state.place == 0 then Decoding(1, d, 0, state.bytes, false)
      else if state.place == 1 then Decoding(2, d % 16, 0, state.bytes + [state.left * 4 + d / 16], false)
      else if state.place == 2 then Decoding(3, d % 4, 0, state.bytes + [state.left * 16 + d / 4], false)
      else Decoding(0, 0, 0, state.bytes + [state.left * 64 + d], false)
  }

  function DecodeFrom(state: Decoding, text: string): (next: Decoding)
    requires ValidDecoding(state)
    ensures ValidDecoding(next)
    decreases |text|
  {
    if text == "" then state else DecodeFrom(DecodeChar(state, text[0]), text[1..])
  }

  const START := Decoding(0, 0, 0, [], false)

  /** The bytes of padded text; None when it stops inside a group of four. */
  function Decode(text: string): Option<seq<Byte>> {
    var last := DecodeFrom(START, text);
    if last.ended || last.place == 0 then Some(last.bytes) else None
  }

  function Padding(length: nat): string {
    seq((4 - length % 4) % 4, _ => '=')
  }

  function Identity(utf8: Charset, path: string): Result<string, Failure> {
    var encoded := Encode(utf8.encode(path));
    if encoded == "" || |encoded| > MAX_ENCODED then Err(LayoutChanged) else Ok(PREFIX + encoded)
  }

  predicate IsAscii(text: string) {
    forall c :: c in text ==> c as int < 128
  }

  function Resolve(utf8: Charset, id: string): Result<string, Failure> {
    if !(PREFIX <= id) then Err(CandidateNotFound)
    else
      var encoded := id[|PREFIX|..];
      var padded := encoded + Padding(|encoded|);
      if !IsAscii(padded) then Err(NotAscii)
      else if Decode(padded).None? then Err(CandidateNotFound)
      else
        var path := utf8.decode(Decode(padded).value);
        if path.None? || !Resolvable(path.value) then Err(CandidateNotFound) else Ok(BASE_URL + path.value)
  }

  predicate Resolvable(path: string) {
    "/" <= path && !Contains(path, "//") && !Contains(path, "?") && !Contains(path, "#")
  }

  // ----- Round trip -----

  /** The alphabet of section 5 of RFC 4648: four runs of which only the ends need saying. */
  lemma SymbolsAreUrlSafe()
    ensures Symbol(0) == 'A' && Symbol(25) == 'Z' && Symbol(26) == 'a' && Symbol(51) == 'z'
    ensures Symbol(52) == '0' && Symbol(61) == '9' && Symbol(62) == '-' && Symbol(63) == '_'
    ensures forall d: Sextet :: d < 61 && d != 25 && d != 51 ==> Symbol(d + 1) as int == Symbol(d) as int + 1
  {
  }

  lemma SymbolRoundTrip(d: Sextet)
    ensures SymbolValue(Symbol(d)) == Some(d) && Symbol(d) != '=' && Symbol(d) as int < 128
  {
  }

  lemma DecodeSymbol(state: Decoding, d: Sextet, text: string)
    requires ValidDecoding(state) && !state.ended
    ensures DecodeFrom(state, [Symbol(d)] + text) == DecodeFrom(DecodeChar(state, Symbol(d)), text)
    ensures SymbolValue(Symbol(d)) == Some(d) && Symbol(d) != '='
  {
    SymbolRoundTrip(d);
    assert ([Symbol(d)] + text)[1..] == text;
  }

  lemma DecodePad(state: Decoding, text: string)
    requires ValidDecoding(state)
    ensures DecodeFrom(state, ['='] + text) == DecodeFrom(DecodeChar(state, '='), text)
  {
    assert (['='] + text)[1..] == text;
  }

  lemma SplitBytes(a: Byte, b: Byte, c: Byte)
    ensures (a / 4) * 4 + (a % 4 * 16 + b / 16) / 16 == a
    ensures ((a % 4 * 16 + b / 16) % 16) * 16 + (b % 16 * 4 + c / 64) / 4 == b
    ensures ((b % 16 * 4 + c / 64) % 4) * 64 + c % 64 == c
    ensures (a % 4 * 16) / 16 == a % 4 && (b % 16 * 4) / 4 == b % 16
  {
  }

  /** Reading one full group of four symbols appends its three bytes. */
  lemma DecodeQuad(bytes: seq<Byte>, a: Byte, b: Byte, c: Byte, text: string)
    ensures DecodeFrom(Decoding(0, 0, 0, bytes, false), Quad(a, b, c) + text)
         == DecodeFrom(Decoding(0, 0, 0, bytes + [a, b, c], false), text)
  {
    hide DecodeFrom, Symbol, SymbolValue;
    SplitBytes(a, b, c);
    var p, q, r, s: Sextet := a / 4, a % 4 * 16 + b / 16, b % 16 * 4 + c / 64, c % 64;
    assert [Symbol(p), Symbol(q), Symbol(r), Symbol(s)] + text
        == [Symbol(p)] + ([Symbol(q)] + ([Symbol(r)] + ([Symbol(s)] + text)));
    DecodeSymbol(Decoding(0, 0, 0, bytes, false), p, [Symbol(q)] + ([Symbol(r)] + ([Symbol(s)] + text)));
    DecodeSymbol(Decoding(1, p, 0, bytes, false), q, [Symbol(r)] + ([Symbol(s)] + text));
    DecodeSymbol(Decoding(2, q % 16, 0, bytes + [a], false), r, [Symbol(s)] + text);
    DecodeSymbol(Decoding(3, r % 4, 0, bytes + [a] + [b], false), s, text);
    assert bytes + [a] + [b] + [c] == bytes + [a, b, c];
  }

  lemma DecodeLastByte(bytes: seq<Byte>, a: Byte)
    ensures var last := DecodeFrom(Decoding(0, 0, 0, bytes, false), [Symbol(a / 4), Symbol(a % 4 * 16)] + "==");
      last.ended && last.bytes == bytes + [a]
  {
    hide Symbol, SymbolValue;
    SplitBytes(a, 0, 0);
    var p, q: Sextet := a / 4, a % 4 * 16;
    assert [Symbol(p), Symbol(q)] + "==" == [Symbol(p)] + ([Symbol(q)] + (['='] + (['='] + "")));
    DecodeSymbol(Decoding(0, 0, 0, bytes, false), p, [Symbol(q)] + (['='] + (['='] + "")));
    DecodeSymbol(Decoding(1, p, 0, bytes, false), q, ['='] + (['='] + ""));
    var middle := Decoding(2, q % 16, 0, bytes + [a], false);
    DecodePad(middle, ['='] + "");
    DecodePad(middle.(pads := 1), "");
  }

  lemma DecodeLastTwo(bytes: seq<Byte>, a: Byte, b: Byte)
    ensures var last := DecodeFrom(Decoding(0, 0, 0, bytes, false),
                                   [Symbol(a / 4), Symbol(a % 4 * 16 + b / 16), Symbol(b % 16 * 4)] + "=");
      last.ended && last.bytes == bytes + [a, b]
  {
    hide Symbol, SymbolValue;
    SplitBytes(a, b, 0);
    var p, q, r: Sextet := a / 4, a % 4 * 16 + b / 16, b % 16 * 4;
    assert [Symbol(p), Symbol(q), Symbol(r)] + "=" == [Symbol(p)] + ([Symbol(q)] + ([Symbol(r)] + (['='] + "")));
    DecodeSymbol(Decoding(0, 0, 0, bytes, false), p, [Symbol(q)] + ([Symbol(r)] + (['='] + "")));
    DecodeSymbol(Decoding(1, p, 0, bytes, false), q, [Symbol(r)] + (['='] + ""));
    DecodeSymbol(Decoding(2, q % 16, 0, bytes + [a], false), r, ['='] + "");
    DecodePad(Decoding(3, r % 4, 0, bytes + [a] + [b], false), "");
    assert bytes + [a] + [b] == bytes + [a, b];
  }

  /** The printed length: four symbols for three bytes, rounded up. */
  lemma {:induction false} EncodedLength(bytes: seq<Byte>)
    ensures |Encode(bytes)| == (4 * |bytes| + 2) / 3
    ensures IsAscii(Encode(bytes))
  {
    if |bytes| >= 3 {
      EncodedLength(bytes[3..]);
    }
  }

  lemma PaddingOf(length: nat)
    ensures length % 4 == 0 ==> Padding(length) == ""
    ensures length % 4 == 2 ==> Padding(length) == "=="
    ensures length % 4 == 3 ==> Padding(length) == "="
  {
  }

  lemma PaddingPeriod(length: nat)
    ensures Padding(length + 4) == Padding(length)
  {
    assert (length + 4) % 4 == length % 4;
  }

  lemma EmptyText(state: Decoding)
    requires ValidDecoding(state)
    ensures DecodeFrom(state, "") == state
  {
  }

  lemma EncodeQuad(bytes: seq<Byte>)
    requires |bytes| >= 3
    ensures Encode(bytes) + Padding(|Encode(bytes)|)
         == Quad(bytes[0], bytes[1], bytes[2]) + (Encode(bytes[3..]) + Padding(|Encode(bytes[3..])|))
  {
    hide Quad, Encode, Padding, Symbol;
    var quad, rest := Quad(bytes[0], bytes[1], bytes[2]), Encode(bytes[3..]);
    EncodeUnfolds(bytes);
    assert |quad + rest| == |rest| + 4;
    PaddingPeriod(|rest|);
    assert (quad + rest) + Padding(|rest|) == quad + (rest + Padding(|rest|));
  }

  lemma EncodeUnfolds(bytes: seq<Byte>)
    requires |bytes| >= 3
    ensures Encode(bytes) == Quad(bytes[0], bytes[1], bytes[2]) + Encode(bytes[3..])
  {
    hide Quad, Tail;
  }

  lemma {:induction false} DecodeEncodeFrom(before: seq<Byte>, bytes: seq<Byte>)
    ensures var last := DecodeFrom(Decoding(0, 0, 0, before, false), Encode(bytes) + Padding(|Encode(bytes)|));
      last.bytes == before + bytes && (last.ended || last.place == 0)
    decreases |bytes|
  {
    hide Symbol, DecodeFrom, Padding, Quad;
    EncodedLength(bytes);
    PaddingOf(|Encode(bytes)|);
    var padding := Padding(|Encode(bytes)|);
    if |bytes| == 0 {
      EmptyText(Decoding(0, 0, 0, before, false));
      assert before + bytes == before && Encode(bytes) + padding == "";
    } else if |bytes| == 1 {
      assert padding == "==" && bytes == [bytes[0]];
      DecodeLastByte(before, bytes[0]);
    } else if |bytes| == 2 {
      assert padding == "=" && bytes == [bytes[0], bytes[1]];
      DecodeLastTwo(before, bytes[0], bytes[1]);
    } else {
      var a, b, c, rest := bytes[0], bytes[1], bytes[2], bytes[3..];
      EncodeQuad(bytes);
      DecodeQuad(before, a, b, c, Encode(rest) + Padding(|Encode(rest)|));
      DecodeEncodeFrom(before + [a, b, c], rest);
      assert (before + [a, b, c]) + rest == before + bytes;
    }
  }

  /** Padding computed from the length alone restores what was stripped. */
  lemma DecodeEncode(bytes: seq<Byte>)
    ensures Decode(Encode(bytes) + Padding(|Encode(bytes)|)) == Some(bytes)
  {
    DecodeEncodeFrom([], bytes);
    assert [] + bytes == bytes;
  }

  lemma EncodeInjective(a: seq<Byte>, b: seq<Byte>)
    requires Encode(a) == Encode(b)
    ensures a == b
  {
    DecodeEncode(a);
    DecodeEncode(b);
  }

  // ----- Main results -----

  /** A path can be printed exactly when it is not empty and its text is at most 360
      bytes; every printed identifier fits the 500-character bound. */
  lemma PrintableExactly(utf8: Charset, path: string)
    ensures Identity(utf8, path).Ok? <==> 1 <= |utf8.encode(path)| <= 360
    ensures Identity(utf8, path).Ok? ==> |Identity(utf8, path).value| <= MAX_IDENTIFIER
  {
    EncodedLength(utf8.encode(path));
  }

  /** Resolving a printed identifier gives back the page it was printed for exactly when
      the path is one the resolver serves; otherwise the candidate is not found. */
  lemma IdentityRoundTrip(utf8: Charset, path: string)
    requires Lawful(utf8) && Identity(utf8, path).Ok?
    ensures Resolve(utf8, Identity(utf8, path).value)
         == if "/" <= path && !Contains(path, "//") && !Contains(path, "?") && !Contains(path, "#")
            then Ok("https://getcomics.org" + path) else Err(CandidateNotFound)
  {
    var encoded := Encode(utf8.encode(path));
    assert (PREFIX + encoded)[|PREFIX|..] == encoded;
    EncodedLength(utf8.encode(path));
    DecodeEncode(utf8.encode(path));
    assert IsAscii(encoded + Padding(|encoded|));
  }

  /** Candidates with one identifier are one page. */
  lemma IdentityInjective(utf8: Charset, a: string, b: string)
    requires Lawful(utf8) && Identity(utf8, a).Ok? && Identity(utf8, a) == Identity(utf8, b)
    ensures a == b
  {
    assert (PREFIX + Encode(utf8.encode(a)))[|PREFIX|..] == Encode(utf8.encode(a));
    assert (PREFIX + Encode(utf8.encode(b)))[|PREFIX|..] == Encode(utf8.encode(b));
    EncodeInjective(utf8.encode(a), utf8.encode(b));
  }

  /** A path taken from a page address starts with a slash and has no query or fragment,
      so only a double slash keeps its candidate from being resolved. */
  lemma OnlyDoubleSlashesAreLost(utf8: Charset, path: string)
    requires Lawful(utf8) && 1 <= |utf8.encode(path)| <= 360
    requires "/" <= path && !Contains(path, "?") && !Contains(path, "#")
    ensures Identity(utf8, path).Ok?
    ensures Resolve(utf8, Identity(utf8, path).value) == Ok(BASE_URL + path) <==> !Contains(path, "//")
  {
    PrintableExactly(utf8, path);
    IdentityRoundTrip(utf8, path);
  }

  /** An identifier that resolves at all names a page whose own identifier, when it has
      one, resolves to the same address. */
  lemma ResolvedPageIsCanonical(utf8: Charset, id: string, path: string)
    requires Lawful(utf8) && Resolve(utf8, id) == Ok(BASE_URL + path) && Identity(utf8, path).Ok?
    ensures Resolve(utf8, Identity(utf8, path).value) == Resolve(utf8, id)
  {
    var encoded := id[|PREFIX|..];
    var decoded := utf8.decode(Decode(encoded + Padding(|encoded|)).value);
    assert (BASE_URL + path)[|BASE_URL|..] == path && (BASE_URL + decoded.value)[|BASE_URL|..] == decoded.value;
    IdentityRoundTrip(utf8, path);
  }

  lemma AsciiAppend(a: string, b: string)
    ensures IsAscii(a + b) <==> IsAscii(a) && IsAscii(b)
  {
    if IsAscii(a + b) {
      assert forall c :: c in a ==> c in a + b;
      assert forall c :: c in b ==> c in a + b;
    }
  }

  /** An identifier escapes the not-found answer exactly when it has the prefix and some
      character that is not ASCII. */
  lemma OnlyNonAsciiEscapes(utf8: Charset, id: string)
    ensures Resolve(utf8, id) == Err(NotAscii) <==> PREFIX <= id && !IsAscii(id)
  {
    if PREFIX <= id {
      var encoded := id[|PREFIX|..];
      assert id == PREFIX + encoded && IsAscii(PREFIX);
      hide Decode, Resolvable;
      AsciiAppend(encoded, Padding(|encoded|));
      AsciiAppend(PREFIX, encoded);
    }
  }

  /** Several identifiers resolve to one page: unused trailing bits are dropped, and the
      standard alphabet is read as well. */
  lemma LenientIdentifiers(utf8: Charset)
    ensures Resolve(utf8, PREFIX + "Lw") == Resolve(utf8, PREFIX + "Lx")
    ensures Resolve(utf8, PREFIX + "-_8") == Resolve(utf8, PREFIX + "+/8")
  {
    hide Decode;
    DroppedBits();
    BothAlphabets();
    PaddingOf(2);
    PaddingOf(3);
    forall encoded: string ensures (PREFIX + encoded)[|PREFIX|..] == encoded {
    }
    assert "Lw" + "==" == "Lw==" && "Lx" + "==" == "Lx==" && "-_8" + "=" == "-_8=" && "+/8" + "=" == "+/8=";
  }

  lemma DroppedBits()
    ensures Decode("Lw==") == Decode("Lx==")
  {
    hide DecodeFrom;
    DecodeFour('L', 'w', '=', '=');
    DecodeFour('L', 'x', '=', '=');
  }

  lemma BothAlphabets()
    ensures Decode("-_8=") == Decode("+/8=")
  {
    hide DecodeFrom;
    DecodeFour('-', '_', '8', '=');
    DecodeFour('+', '/', '8', '=');
  }

  lemma DecodeFour(a: char, b: char, c: char, d: char)
    ensures DecodeFrom(START, [a, b, c, d]) == DecodeChar(DecodeChar(DecodeChar(DecodeChar(START, a), b), c), d)
  {
    hide DecodeChar;
    var one := DecodeChar(START, a);
    assert [a, b, c, d][1..] == [b, c, d] && [b, c, d][1..] == [c, d] && [c, d][1..] == [d] && [d][1..] == [];
    assert DecodeFrom(START, [a, b, c, d]) == DecodeFrom(one, [b, c, d]);
    assert DecodeFrom(one, [b, c, d]) == DecodeFrom(DecodeChar(one, b), [c, d]);
    var two := DecodeChar(one, b);
    assert DecodeFrom(two, [c, d]) == DecodeFrom(DecodeChar(two, c), [d]);
    EmptyText(DecodeChar(DecodeChar(two, c), d));
  }

  lemma Utf8IsLawful()
    ensures Lawful(UTF8)
  {
    forall text: string ensures UTF8.decode(UTF8.encode(text)) == Some(text) {
      Utf8.DecodeEncode(text);
    }
  }

  /** In UTF-8: a page is found again from its identifier exactly when its path is served,
      and every path of at most 90 characters has an identifier. */
  lemma PagesInUtf8(path: string)
    ensures 1 <= |path| <= 90 ==> Identity(UTF8, path).Ok?
    ensures Identity(UTF8, path).Ok? ==>
      Resolve(UTF8, Identity(UTF8, path).value)
      == if "/" <= path && !Contains(path, "//") && !Contains(path, "?") && !Contains(path, "#")
         then Ok("https://getcomics.org" + path) else Err(CandidateNotFound)
  {
    hide Identity, Resolve;
    Utf8IsLawful();
    Utf8.EncodedSize(path);
    PrintableExactly(UTF8, path);
    if Identity(UTF8, path).Ok? {
      IdentityRoundTrip(UTF8, path);
    }
  }

  /** The page "/a//b" is listed but not found; an accented identifier raises an error. */
  lemma LostIdentifiers()
    ensures Identity(UTF8, "/a//b").Ok?
    ensures Resolve(UTF8, Identity(UTF8, "/a//b").value) == Err(CandidateNotFound)
    ensures Resolve(UTF8, PREFIX + "\U{e9}") == Err(NotAscii)
  {
    PagesInUtf8("/a//b");
    assert "/a//b"[1..] == "a//b" && "a//b"[1..] == "//b" && "//" <= "//b";
    assert Contains("//b", "//") && Contains("a//b", "//") && Contains("/a//b", "//");
    var id := PREFIX + "\U{e9}";
    assert id[|PREFIX|] in id && !IsAscii(id);
    OnlyNonAsciiEscapes(UTF8, id);
  }

  // ----- What the decoder makes of other texts -----

  lemma {:induction false} DecodeAppend(state: Decoding, a: string, b: string)
    requires ValidDecoding(state)
    ensures DecodeFrom(state, a + b) == DecodeFrom(DecodeFrom(state, a), b)
    decreases |a|
  {
    if a == "" {
      assert a + b == b;
    } else {
      assert (a + b)[1..] == a[1..] + b;
      DecodeAppend(DecodeChar(state, a[0]), a[1..], b);
    }
  }

  /** A character outside both alphabets, anywhere in the text, is skipped. */
  lemma OtherCharactersAreSkipped(a: string, c: char, b: string)
    requires c != '=' && SymbolValue(c).None?
    ensures Decode(a + [c] + b) == Decode(a + b)
  {
    hide DecodeChar;
    DecodeAppend(START, a, b);
    DecodeAppend(START, a + [c], b);
    DecodeAppend(START, a, [c]);
    assert [c][1..] == "";
    var state := DecodeFrom(START, a);
    assert DecodeFrom(state, [c]) == DecodeFrom(DecodeChar(state, c), "");
    SkippedCharacter(state, c);
  }

  lemma SkippedCharacter(state: Decoding, c: char)
    requires ValidDecoding(state) && c != '=' && SymbolValue(c).None?
    ensures DecodeChar(state, c) == state
  {
  }

  function Symbols(text: string): nat {
    if text == "" then 0 else (if SymbolValue(text[0]).Some? then 1 else 0) + Symbols(text[1..])
  }

  /** Text without padding is decoded exactly when its symbols come in groups of four. */
  lemma UnpaddedIsDecodedExactly(text: string)
    requires '=' !in text
    ensures Decode(text).Some? <==> Symbols(text) % 4 == 0
  {
    PlaceCountsSymbols(START, text);
  }

  lemma {:induction false} PlaceCountsSymbols(state: Decoding, text: string)
    requires ValidDecoding(state) && !state.ended && '=' !in text
    ensures var last := DecodeFrom(state, text);
      !last.ended && last.place == (state.place + Symbols(text)) % 4
    decreases |text|
  {
    if text != "" {
      assert text == [text[0]] + text[1..];
      var next := DecodeChar(state, text[0]);
      assert next.place == (state.place + if SymbolValue(text[0]).Some? then 1 else 0) % 4 && !next.ended;
      PlaceCountsSymbols(next, text[1..]);
    }
  }
}
