/** UTF-8 (RFC 3629): text to bytes, and the strict decoder back. */
module Utf8 {
  import opened Results

  type Byte = b: int | 0 <= b < 256

  function EncodeChar(c: char): seq<Byte> {
    var n := c as int;
    if n < 0x80 then [n]
    else if n < 0x800 then [0xc0 + n / 64, 0x80 + n % 64]
    else if n < 0x10000 then [0xe0 + n / 4096, 0x80 + n / 64 % 64, 0x80 + n % 64]
    else [0xf0 + n / 262144, 0x80 + n / 4096 % 64, 0x80 + n / 64 % 64, 0x80 + n % 64]
  }

  function Encode(text: string): seq<Byte> {
    if text == "" then [] else EncodeChar(text[0]) + Encode(text[1..])
  }

  predicate IsContinuation(b: Byte) {
    0x80 <= b < 0xc0
  }

  /** The number of bytes a first byte announces; 0 for one that begins no character. */
  function Announced(b: Byte): nat {
    if b < 0x80 then 1
    else if 0xc0 <= b < 0xe0 then 2
    else if 0xe0 <= b < 0xf0 then 3
    else if 0xf0 <= b < 0xf8 then 4
    else 0
  }

  function Bits(b: Byte, mark: int): nat
    requires 0 <= mark <= b
  {
    var value: int := b;
    value - mark
  }

  /** The number the bytes of one character carry. */
  function Carried(bytes: seq<Byte>): nat
    requires 1 <= |bytes| <= 4 && Announced(bytes[0]) == |bytes|
    requires forall i :: 1 <= i < |bytes| ==> IsContinuation(bytes[i])
  {
    if |bytes| == 1 then bytes[0]
    else if |bytes| == 2 then
      assert IsContinuation(bytes[1]);
      Bits(bytes[0], 0xc0) * 64 + Bits(bytes[1], 0x80)
    else if |bytes| == 3 then
      assert IsContinuation(bytes[1]) && IsContinuation(bytes[2]);
      Bits(bytes[0], 0xe0) * 4096 + Bits(bytes[1], 0x80) * 64 + Bits(bytes[2], 0x80)
    else
      assert IsContinuation(bytes[1]) && IsContinuation(bytes[2]) && IsContinuation(bytes[3]);
      Bits(bytes[0], 0xf0) * 262144 + Bits(bytes[1], 0x80) * 4096 + Bits(bytes[2], 0x80) * 64 + Bits(bytes[3], 0x80)
  }

  predicate IsScalar(n: nat) {
    n < 0xd800 || 0xe000 <= n < 0x110000
  }

  /** The character some bytes encode, in their shortest form only. */
  function DecodeChar(bytes: seq<Byte>): Option<char> {
    if !(1 <= |bytes| <= 4) || Announced(bytes[0]) != |bytes| then None
    else if exists i :: 1 <= i < |bytes| && !IsContinuation(bytes[i]) then None
    else
      var n := Carried(bytes);
      if IsScalar(n) && EncodeChar(n as char) == bytes then Some(n as char) else None
  }

  function Decode(bytes: seq<Byte>): Option<string>
    decreases |bytes|
  {
    if bytes == [] then Some("")
    else
      var size := Announced(bytes[0]);
      if size == 0 || size > |bytes| then None
      else
        var first, rest := DecodeChar(bytes[..size]), Decode(bytes[size..]);
        if first.None? || rest.None? then None else Some([first.value] + rest.value)
  }

  lemma EncodedChar(c: char)
    ensures var bytes := EncodeChar(c);
      && 1 <= |bytes| <= 4 && Announced(bytes[0]) == |bytes|
      && (forall i :: 1 <= i < |bytes| ==> IsContinuation(bytes[i]))
      && Carried(bytes) == c as int && IsScalar(c as int)
  {
    var n := c as int;
    assert n == n / 64 * 64 + n % 64;
    assert n / 64 == n / 64 / 64 * 64 + n / 64 % 64;
    assert n / 64 / 64 == n / 4096 && n / 4096 / 64 == n / 262144;
    assert n / 4096 == n / 4096 / 64 * 64 + n / 4096 % 64;
  }

  lemma DecodeEncodedChar(c: char)
    ensures DecodeChar(EncodeChar(c)) == Some(c)
  {
    EncodedChar(c);
    hide EncodeChar, Carried;
  }

  /** Decoding undoes encoding. */
  lemma {:induction false} DecodeEncode(text: string)
    ensures Decode(Encode(text)) == Some(text)
  {
    hide EncodeChar, Carried, DecodeChar, Announced;
    if text != "" {
      var c, rest := text[0], text[1..];
      EncodedChar(c);
      DecodeEncodedChar(c);
      DecodeEncode(rest);
      var size := |EncodeChar(c)|;
      assert Encode(text)[..size] == EncodeChar(c) && Encode(text)[size..] == Encode(rest);
      assert text == [c] + rest;
    }
  }

  /** A text takes at least a byte and at most four for each character. */
  lemma {:induction false} EncodedSize(text: string)
    ensures |text| <= |Encode(text)| <= 4 * |text|
  {
    hide EncodeChar;
    if text != "" {
      EncodedChar(text[0]);
      EncodedSize(text[1..]);
    }
  }

  /** The three longer forms, on a letter, a currency sign and a face. */
  lemma SomeEncodings()
    ensures Encode("A") == [0x41] && Encode("\U{e9}") == [0xc3, 0xa9]
    ensures Encode("\U{20ac}") == [0xe2, 0x82, 0xac] && Encode("\U{1f600}") == [0xf0, 0x9f, 0x98, 0x80]
  {
    assert "A"[1..] == "" && "\U{e9}"[1..] == "" && "\U{20ac}"[1..] == "" && "\U{1f600}"[1..] == "";
  }
}
