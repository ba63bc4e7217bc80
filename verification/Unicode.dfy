/** The Unicode encoding forms (section 3.9 of the Unicode Standard), independent of the converters. */
module Unicode {
  type UTF32 = bv32
  type UTF16 = u: bv32 | u <= 0xFFFF
  type UTF8 = b: bv32 | b <= 0xFF

  /** Definition D76. */
  type Scalar = ch: UTF32 | ch < 0xD800 || 0xE000 <= ch <= 0x10FFFF

  // The bit fields of Tables 3-5 and 3-6.
  function HighSurrogate(ch: UTF32): UTF32 { 0xD800 | ((ch - 0x10000) >> 10) }
  function LowSurrogate(ch: UTF32): UTF32 { 0xDC00 | (ch & 0x3FF) }
  function Lead2(ch: UTF32): UTF32 { 0xC0 | (ch >> 6) }
  function Lead3(ch: UTF32): UTF32 { 0xE0 | (ch >> 12) }
  function Lead4(ch: UTF32): UTF32 { 0xF0 | (ch >> 18) }
  function Trail0(ch: UTF32): UTF8 { 0x80 | (ch & 0x3F) }
  function Trail6(ch: UTF32): UTF8 { 0x80 | ((ch >> 6) & 0x3F) }
  function Trail12(ch: UTF32): UTF8 { 0x80 | ((ch >> 12) & 0x3F) }
  function Join2(a: UTF32, b: UTF32): UTF32 { ((a & 0x1F) << 6) | (b & 0x3F) }
  function Join3(a: UTF32, b: UTF32, c: UTF32): UTF32 { ((a & 0xF) << 12) | ((b & 0x3F) << 6) | (c & 0x3F) }
  function Join4(a: UTF32, b: UTF32, c: UTF32, d: UTF32): UTF32 {
    ((a & 0x7) << 18) | ((b & 0x3F) << 12) | ((c & 0x3F) << 6) | (d & 0x3F)
  }

  function Utf16Of(ch: Scalar): (s: seq<UTF16>)
    ensures 1 <= |s| <= 2
  {
    if ch <= 0xFFFF then [ch]
    else [HighSurrogate(ch), LowSurrogate(ch)]
  }

  function Utf8Of(ch: Scalar): (s: seq<UTF8>)
    ensures 1 <= |s| <= 4
  {
    if ch <= 0x7F then [ch]
    else if ch <= 0x7FF then [Lead2(ch), Trail0(ch)]
    else if ch <= 0xFFFF then [Lead3(ch), Trail6(ch), Trail0(ch)]
    else [Lead4(ch), Trail12(ch), Trail6(ch), Trail0(ch)]
  }

  function Utf16(text: seq<Scalar>): seq<UTF16> {
    if |text| == 0 then [] else Utf16Of(text[0]) + Utf16(text[1..])
  }

  function Utf8(text: seq<Scalar>): seq<UTF8> {
    if |text| == 0 then [] else Utf8Of(text[0]) + Utf8(text[1..])
  }

  // Table 3-7: well-formed byte sequences.
  predicate IsTail(b: UTF32) { 0x80 <= b <= 0xBF }

  predicate WellFormedChar(s: seq<UTF32>) {
    if |s| == 1 then s[0] <= 0x7F
    else if |s| == 2 then 0xC2 <= s[0] <= 0xDF && IsTail(s[1])
    else if |s| == 3 then
      && IsTail(s[1]) && IsTail(s[2]) && 0xE0 <= s[0] <= 0xEF
      && (s[0] == 0xE0 ==> s[1] >= 0xA0) && (s[0] == 0xED ==> s[1] <= 0x9F)
    else if |s| == 4 then
      && IsTail(s[1]) && IsTail(s[2]) && IsTail(s[3]) && 0xF0 <= s[0] <= 0xF4
      && (s[0] == 0xF0 ==> s[1] >= 0x90) && (s[0] == 0xF4 ==> s[1] <= 0x8F)
    else false
  }

  /** A byte sequence is well formed when it splits into well-formed characters. */
  predicate WellFormed(s: seq<UTF32>)
    decreases |s|
  {
    |s| == 0 || exists n :: 1 <= n <= 4 && n <= |s| && WellFormedChar(s[..n]) && WellFormed(s[n..])
  }

  function ScalarOf(s: seq<UTF32>): (ch: Scalar)
    requires WellFormedChar(s)
  {
    if |s| == 1 then s[0]
    else if |s| == 2 then Join2(s[0], s[1])
    else if |s| == 3 then Join3(s[0], s[1], s[2])
    else Join4(s[0], s[1], s[2], s[3])
  }

  lemma Split2(a: UTF32, b: UTF32)
    requires 0xC2 <= a <= 0xDF && IsTail(b)
    ensures var ch := Join2(a, b);
      0x80 <= ch <= 0x7FF && a == Lead2(ch) && b == Trail0(ch)
  {
  }

  lemma Split3(a: UTF32, b: UTF32, c: UTF32)
    requires 0xE0 <= a <= 0xEF && IsTail(b) && IsTail(c) && (a == 0xE0 ==> b >= 0xA0)
    ensures var ch := Join3(a, b, c);
      0x800 <= ch <= 0xFFFF && a == Lead3(ch) && b == Trail6(ch) && c == Trail0(ch)
  {
  }

  lemma Split4(a: UTF32, b: UTF32, c: UTF32, d: UTF32)
    requires 0xF0 <= a <= 0xF4 && IsTail(b) && IsTail(c) && IsTail(d)
    requires (a == 0xF0 ==> b >= 0x90) && (a == 0xF4 ==> b <= 0x8F)
    ensures var ch := Join4(a, b, c, d);
      0x10000 <= ch <= 0x10FFFF && a == Lead4(ch) && b == Trail12(ch) && c == Trail6(ch) && d == Trail0(ch)
  {
  }

  /** The decoding of a well-formed character is a right inverse of the encoding. */
  lemma WellFormedCharIsEncoded(s: seq<UTF32>)
    requires WellFormedChar(s)
    ensures Utf8Of(ScalarOf(s)) == s
  {
    hide Lead2;
    hide Lead3;
    hide Lead4;
    hide Trail0;
    hide Trail6;
    hide Trail12;
    hide Join2;
    hide Join3;
    hide Join4;
    if |s| == 2 {
      Split2(s[0], s[1]);
    } else if |s| == 3 {
      Split3(s[0], s[1], s[2]);
    } else if |s| == 4 {
      Split4(s[0], s[1], s[2], s[3]);
    }
  }

  lemma EncodedIsWellFormedChar(ch: Scalar)
    ensures WellFormedChar(Utf8Of(ch))
  {
  }

  lemma DecodesEncoded(ch: Scalar)
    ensures WellFormedChar(Utf8Of(ch)) && ScalarOf(Utf8Of(ch)) == ch
  {
    hide Lead2;
    hide Lead3;
    hide Lead4;
    hide Trail0;
    hide Trail6;
    hide Trail12;
    hide Join2;
    hide Join3;
    hide Join4;
    hide WellFormedChar;
    EncodedIsWellFormedChar(ch);
    JoinsFields(ch);
  }

  lemma JoinsFields(ch: Scalar)
    ensures 0x80 <= ch <= 0x7FF ==> Join2(Lead2(ch), Trail0(ch)) == ch
    ensures 0x800 <= ch <= 0xFFFF ==> Join3(Lead3(ch), Trail6(ch), Trail0(ch)) == ch
    ensures 0x10000 <= ch ==> Join4(Lead4(ch), Trail12(ch), Trail6(ch), Trail0(ch)) == ch
  {
  }

  /** Every well-formed byte sequence is the UTF-8 of a text, and conversely. */
  lemma {:induction false} WellFormedIsEncoded(s: seq<UTF32>) returns (text: seq<Scalar>)
    requires WellFormed(s)
    ensures Utf8(text) == s
    decreases |s|
  {
    hide Utf8Of;
    hide WellFormedChar;
    hide ScalarOf;
    if |s| == 0 {
      text := [];
    } else {
      var n :| 1 <= n <= 4 && n <= |s| && WellFormedChar(s[..n]) && WellFormed(s[n..]);
      var rest := WellFormedIsEncoded(s[n..]);
      text := [ScalarOf(s[..n])] + rest;
      WellFormedCharIsEncoded(s[..n]);
      assert s == s[..n] + s[n..];
    }
  }

  lemma {:induction false} EncodedIsWellFormed(text: seq<Scalar>)
    ensures WellFormed(Utf8(text))
  {
    if |text| > 0 {
      var s := Utf8(text);
      var n := |Utf8Of(text[0])|;
      EncodedIsWellFormedChar(text[0]);
      EncodedIsWellFormed(text[1..]);
      assert s[..n] == Utf8Of(text[0]) && s[n..] == Utf8(text[1..]);
    }
  }
}
