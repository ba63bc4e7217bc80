/** What the converters do to texts: the encoding forms, round trips, the triangle, and the legality check. */
module UtfTexts {
  import opened Unicode
  import opened ConvertUtf

  datatype Form = F8 | F16 | F32

  function From(c: Converter): Form {
    match c
    case C8to16 => F8 case C8to32 => F8 case C16to8 => F16 case C16to32 => F16 case C32to8 => F32 case C32to16 => F32
  }

  function To(c: Converter): Form {
    match c
    case C8to16 => F16 case C8to32 => F32 case C16to8 => F8 case C16to32 => F32 case C32to8 => F8 case C32to16 => F16
  }

  function EncodeChar(form: Form, ch: Scalar): (s: seq<UTF32>)
    ensures 1 <= |s| <= 4
  {
    match form case F8 => Utf8Of(ch) case F16 => Utf16Of(ch) case F32 => [ch]
  }

  function Encode(form: Form, text: seq<Scalar>): seq<UTF32> {
    if |text| == 0 then [] else EncodeChar(form, text[0]) + Encode(form, text[1..])
  }

  // ---------------------------------------------------------------- bit fields

  lemma WrittenFields(ch: Scalar)
    ensures ch <= 0x7F ==> FirstByte(ch, 1) == ch
    ensures ch <= 0x7FF ==> FirstByte(Drop(ch), 2) == Lead2(ch)
    ensures ch <= 0xFFFF ==> FirstByte(Drop(Drop(ch)), 3) == Lead3(ch)
    ensures FirstByte(Drop(Drop(Drop(ch))), 4) == Lead4(ch)
    ensures MarkedByte(ch) == Trail0(ch) && MarkedByte(Drop(ch)) == Trail6(ch)
    ensures MarkedByte(Drop(Drop(ch))) == Trail12(ch)
  {
  }

  lemma WritesUtf8(ch: Scalar)
    ensures WrittenBytes(ch, BytesToWrite(ch)) == Utf8Of(ch)
  {
    hide Lead2;
    hide Lead3;
    hide Lead4;
    hide Trail0;
    hide Trail6;
    hide Trail12;
    hide MarkedByte;
    hide FirstByte;
    hide Drop;
    WrittenFields(ch);
  }

  lemma ReadFields(a: UTF32, b: UTF32, c: UTF32, d: UTF32)
    ensures 0xC2 <= a <= 0xDF && IsTail(b) ==> Value2(a, b) == Join2(a, b)
    ensures 0xE0 <= a <= 0xEF && IsTail(b) && IsTail(c) ==> Value3(a, b, c) == Join3(a, b, c)
    ensures 0xF0 <= a <= 0xF4 && IsTail(b) && IsTail(c) && IsTail(d) ==> Value4(a, b, c, d) == Join4(a, b, c, d)
  {
  }

  lemma ReadsUtf8(s: seq<UTF32>)
    requires WellFormedChar(s)
    ensures ReadValue(s) == ScalarOf(s) && TrailingBytes(s[0]) + 1 == |s|
  {
    hide Join2;
    hide Join3;
    hide Join4;
    hide Value2;
    hide Value3;
    hide Value4;
    if |s| == 2 {
      ReadFields(s[0], s[1], 0, 0);
    } else if |s| == 3 {
      ReadFields(s[0], s[1], s[2], 0);
    } else if |s| == 4 {
      ReadFields(s[0], s[1], s[2], s[3]);
    }
  }

  lemma SurrogateFields(ch: Scalar)
    requires ch >= 0x10000
    ensures HighHalf(ch) == HighSurrogate(ch) && LowHalf(ch) == LowSurrogate(ch)
    ensures IsHigh(HighSurrogate(ch)) && IsLow(LowSurrogate(ch))
  {
  }

  lemma PairsUp(ch: Scalar)
    requires ch >= 0x10000
    ensures FromPair(HighSurrogate(ch), LowSurrogate(ch)) == ch
  {
  }

  // ---------------------------------------------------------------- isLegalUTF8

  lemma QuirkAfterED(a: UTF32, b: UTF32)
    requires a < 0x80 && IsTail(b)
    ensures 0xA000 < Value3(0xED, a, b) < 0xD800
  {
    assert Value3(0xED, a, b) == (((0xED << 6) + a) << 6) + b - 0xE2080;
  }

  lemma QuirkAfterF4(a: UTF32, b: UTF32, c: UTF32)
    requires a < 0x80 && IsTail(b) && IsTail(c)
    ensures 0x10000 <= Value4(0xF4, a, b, c) <= 0x10FFFF
  {
    assert Value4(0xF4, a, b, c) == (((((0xF4 << 6) + a) << 6) + b) << 6) + c - 0x3C82080;
  }

  /** Every value the UTF-8 decoders compute after the check is a scalar value: their later branches are dead. */
  lemma LegalValueIsScalar(s: seq<UTF32>)
    requires Legal(s)
    ensures 1 <= |s| <= 4 && !IsSurrogate(ReadValue(s)) && ReadValue(s) <= UNI_MAX_LEGAL_UTF32
  {
    if WellFormedChar(s) {
      ReadsUtf8(s);
    } else if |s| == 3 {
      QuirkAfterED(s[1], s[2]);
    } else {
      QuirkAfterF4(s[1], s[2], s[3]);
    }
  }

  /** The quirk is real and is no part of Table 3-7. */
  lemma QuirkIsIllFormed(s: seq<UTF32>)
    ensures Legal([0xED, 0x00, 0x80]) && Legal([0xF4, 0x7F, 0x80, 0xBF])
    ensures LegalQuirk(s) ==> !WellFormedChar(s)
  {
  }

  lemma StepIgnoresFlags(c: Converter, bytes: seq<UTF32>, room: nat)
    requires From(c) == F8 && |bytes| > 0
    ensures StepOf(c, StrictConversion, bytes, room) == StepOf(c, LenientConversion, bytes, room)
  {
    hide Legal;
    hide ReadValue;
    hide TrailingBytes;
    hide HighHalf;
    hide LowHalf;
    var extra := TrailingBytes(bytes[0]);
    if extra < |bytes| && Legal(bytes[..extra + 1]) {
      LegalValueIsScalar(bytes[..extra + 1]);
    }
  }

  /** So on any bytes at all strict and lenient mode agree, and the UTF-32 decoder writes only scalar values. */
  lemma {:induction false} DecodersIgnoreFlags(c: Converter, bytes: seq<UTF32>, room: nat)
    requires From(c) == F8
    ensures Run(c, StrictConversion, bytes, room) == Run(c, LenientConversion, bytes, room)
    decreases |bytes|
  {
    hide StepOf;
    if |bytes| > 0 {
      StepIgnoresFlags(c, bytes, room);
      var step := StepOf(c, StrictConversion, bytes, room);
      if step.Emit? {
        DecodersIgnoreFlags(c, bytes[step.read..], room - |step.units|);
      }
    }
  }

  lemma {:induction false} DecoderWritesScalars(bytes: seq<UTF32>, flags: ConversionFlags, room: nat)
    ensures forall ch :: ch in Run(C8to32, flags, bytes, room).out ==> !IsSurrogate(ch) && ch <= UNI_MAX_LEGAL_UTF32
    decreases |bytes|
  {
    hide Legal;
    hide ReadValue;
    if |bytes| > 0 && room > 0 {
      var extra := TrailingBytes(bytes[0]);
      if extra < |bytes| && Legal(bytes[..extra + 1]) {
        LegalValueIsScalar(bytes[..extra + 1]);
        DecoderWritesScalars(bytes[extra + 1..], flags, room - 1);
      }
    }
  }

  // ---------------------------------------------------------------- one character

  lemma Step8OnChar(c: Converter, flags: ConversionFlags, ch: Scalar, rest: seq<UTF32>, room: nat)
    requires From(c) == F8 && room >= |EncodeChar(To(c), ch)|
    ensures StepOf(c, flags, Utf8Of(ch) + rest, room) == Emit(|Utf8Of(ch)|, EncodeChar(To(c), ch), false)
  {
    hide Utf8Of;
    hide ScalarOf;
    hide ReadValue;
    hide TrailingBytes;
    hide WellFormedChar;
    hide HighHalf;
    hide LowHalf;
    hide HighSurrogate;
    hide LowSurrogate;
    var s := Utf8Of(ch);
    DecodesEncoded(ch);
    ReadsUtf8(s);
    assert (s + rest)[..|s|] == s && (s + rest)[0] == s[0];
    if ch >= 0x10000 {
      SurrogateFields(ch);
    }
  }

  lemma Step16OnChar(c: Converter, flags: ConversionFlags, ch: Scalar, rest: seq<UTF32>, room: nat)
    requires From(c) == F16 && room >= |EncodeChar(To(c), ch)|
    ensures StepOf(c, flags, Utf16Of(ch) + rest, room) == Emit(|Utf16Of(ch)|, EncodeChar(To(c), ch), false)
  {
    hide Utf8Of;
    hide HighSurrogate;
    hide LowSurrogate;
    hide FromPair;
    hide WrittenBytes;
    WritesUtf8(ch);
    if ch >= 0x10000 {
      SurrogateFields(ch);
      PairsUp(ch);
    }
  }

  lemma Step32OnChar(c: Converter, flags: ConversionFlags, ch: Scalar, rest: seq<UTF32>, room: nat)
    requires From(c) == F32 && room >= |EncodeChar(To(c), ch)|
    ensures StepOf(c, flags, [ch] + rest, room) == Emit(1, EncodeChar(To(c), ch), false)
  {
    hide Utf8Of;
    hide WrittenBytes;
    hide HighHalf;
    hide LowHalf;
    hide HighSurrogate;
    hide LowSurrogate;
    WritesUtf8(ch);
    if ch >= 0x10000 {
      SurrogateFields(ch);
    }
  }

  lemma StepOnChar(c: Converter, flags: ConversionFlags, ch: Scalar, rest: seq<UTF32>, room: nat)
    requires room >= |EncodeChar(To(c), ch)|
    ensures StepOf(c, flags, EncodeChar(From(c), ch) + rest, room)
         == Emit(|EncodeChar(From(c), ch)|, EncodeChar(To(c), ch), false)
  {
    hide StepOf;
    hide Utf8Of;
    hide Utf16Of;
    match From(c)
    case F8 => Step8OnChar(c, flags, ch, rest, room);
    case F16 => Step16OnChar(c, flags, ch, rest, room);
    case F32 => Step32OnChar(c, flags, ch, rest, room);
  }

  // ---------------------------------------------------------------- texts

  /**
   * Each converter, strict or lenient, maps the encoding of any text in its source form to the encoding of the same
   * text in its target form, reads all of it and reports success, given room for the result.
   */
  lemma {:induction false} ConvertsText(c: Converter, flags: ConversionFlags, text: seq<Scalar>, room: nat)
    requires room >= |Encode(To(c), text)|
    ensures Run(c, flags, Encode(From(c), text), room)
         == Outcome(ConversionOK, |Encode(From(c), text)|, Encode(To(c), text))
    decreases |text|
  {
    hide StepOf;
    hide EncodeChar;
    if |text| > 0 {
      var head, rest := EncodeChar(From(c), text[0]), Encode(From(c), text[1..]);
      StepOnChar(c, flags, text[0], rest, room);
      assert (head + rest)[|head|..] == rest;
      ConvertsText(c, flags, text[1..], room - |EncodeChar(To(c), text[0])|);
    }
  }

  lemma SplitsPair(a: UTF32, b: UTF32)
    requires IsHigh(a) && IsLow(b)
    ensures 0x10000 <= FromPair(a, b) <= 0x10FFFF
    ensures HighSurrogate(FromPair(a, b)) == a && LowSurrogate(FromPair(a, b)) == b
  {
  }

  lemma AcceptedChar(c: Converter, src: seq<UTF32>, room: nat) returns (ch: Scalar)
    requires From(c) != F8 && |src| > 0 && (From(c) == F16 ==> forall u :: u in src ==> u <= 0xFFFF)
    requires var step := StepOf(c, StrictConversion, src, room); step.Emit? && !step.illegal
    ensures var n := StepOf(c, StrictConversion, src, room).read;
      EncodeChar(From(c), ch) == src[..n]
  {
    hide FromPair;
    hide HighSurrogate;
    hide LowSurrogate;
    hide WrittenBytes;
    hide HighHalf;
    hide LowHalf;
    if From(c) == F16 && IsHigh(src[0]) {
      SplitsPair(src[0], src[1]);
      ch := FromPair(src[0], src[1]);
    } else {
      assert src[0] in src;
      ch := src[0];
    }
  }

  /** Conversely, strict conversion from UTF-16 or UTF-32 succeeds on nothing but encoded texts. */
  lemma {:induction false} AcceptsOnlyTexts(c: Converter, src: seq<UTF32>, room: nat) returns (text: seq<Scalar>)
    requires From(c) != F8 && (From(c) == F16 ==> forall u :: u in src ==> u <= 0xFFFF)
    requires Run(c, StrictConversion, src, room).result == ConversionOK
    ensures Encode(From(c), text) == src
    decreases |src|
  {
    hide StepOf;
    hide EncodeChar;
    if |src| == 0 {
      text := [];
    } else {
      var step := StepOf(c, StrictConversion, src, room);
      StopIsNoSuccess(c, src, room);
      var ch := AcceptedChar(c, src, room);
      assert forall u :: u in src[step.read..] ==> u in src;
      var rest := AcceptsOnlyTexts(c, src[step.read..], room - |step.units|);
      text := [ch] + rest;
      assert src == src[..step.read] + src[step.read..];
    }
  }

  /** A byte sequence that splits into sequences isLegalUTF8 accepts. */
  predicate LegalSequence(s: seq<UTF32>)
    decreases |s|
  {
    |s| == 0 || exists n :: 1 <= n <= 4 && n <= |s| && Legal(s[..n]) && LegalSequence(s[n..])
  }

  lemma LegalHasItsLength(s: seq<UTF32>, n: nat)
    requires 1 <= n <= 4 && n <= |s| && Legal(s[..n])
    ensures n == TrailingBytes(s[0]) + 1
  {
    if WellFormedChar(s[..n]) {
      ReadsUtf8(s[..n]);
    }
  }

  lemma Step8Shape(c: Converter, flags: ConversionFlags, bytes: seq<UTF32>, room: nat)
    requires From(c) == F8 && |bytes| > 0 && room >= 2
    ensures var n, step := TrailingBytes(bytes[0]) + 1, StepOf(c, flags, bytes, room);
      if n <= |bytes| && Legal(bytes[..n]) then step.Emit? && step.read == n && !step.illegal
      else step.Stop? && step.result != ConversionOK
  {
    hide Legal;
    hide ReadValue;
    hide TrailingBytes;
    hide HighHalf;
    hide LowHalf;
    var n := TrailingBytes(bytes[0]) + 1;
    if n <= |bytes| && Legal(bytes[..n]) {
      LegalValueIsScalar(bytes[..n]);
    }
  }

  /** Conversion from UTF-8 succeeds exactly on those, in either mode, given room. */
  lemma {:induction false} Accepts8ExactlyLegal(c: Converter, flags: ConversionFlags, bytes: seq<UTF32>, room: nat)
    requires From(c) == F8 && room >= 4 * |bytes|
    ensures Run(c, flags, bytes, room).result == ConversionOK <==> LegalSequence(bytes)
    decreases |bytes|
  {
    hide Legal;
    hide StepOf;
    hide TrailingBytes;
    if |bytes| > 0 {
      var n := TrailingBytes(bytes[0]) + 1;
      forall m | 1 <= m <= 4 && m <= |bytes| && Legal(bytes[..m]) ensures m == n {
        LegalHasItsLength(bytes, m);
      }
      Step8Shape(c, flags, bytes, room);
      if n <= |bytes| && Legal(bytes[..n]) {
        LegalValueIsScalar(bytes[..n]);
        var step := StepOf(c, flags, bytes, room);
        Accepts8ExactlyLegal(c, flags, bytes[n..], room - |step.units|);
      }
    }
  }

  lemma StopIsNoSuccess(c: Converter, src: seq<UTF32>, room: nat)
    requires |src| > 0
    ensures StepOf(c, StrictConversion, src, room) != Stop(ConversionOK)
  {
    hide Legal;
    hide ReadValue;
    hide TrailingBytes;
  }

  lemma {:induction false} EncodeIsUtf(text: seq<Scalar>)
    ensures Encode(F8, text) == Utf8(text) && Encode(F16, text) == Utf16(text) && Encode(F32, text) == text
    decreases |text|
  {
    hide Utf8Of;
    hide Utf16Of;
    if |text| > 0 {
      EncodeIsUtf(text[1..]);
      assert text == [text[0]] + text[1..];
    }
  }

  function Inverse(c: Converter): Converter {
    match c
    case C8to16 => C16to8 case C16to8 => C8to16 case C8to32 => C32to8
    case C32to8 => C8to32 case C16to32 => C32to16 case C32to16 => C16to32
  }

  /** Converting a text and converting it back is the identity, for each of the six converters. */
  lemma RoundTrip(c: Converter, flags: ConversionFlags, back: ConversionFlags, text: seq<Scalar>, room: nat, room2: nat)
    requires room >= |Encode(To(c), text)| && room2 >= |Encode(From(c), text)|
    ensures var there := Run(c, flags, Encode(From(c), text), room);
      Run(Inverse(c), back, there.out, room2) == Outcome(ConversionOK, |there.out|, Encode(From(c), text))
  {
    ConvertsText(c, flags, text, room);
    ConvertsText(Inverse(c), back, text, room2);
  }

  lemma RoundTrip32Through8(text: seq<Scalar>, flags: ConversionFlags, back: ConversionFlags)
    ensures Run(C8to32, back, Run(C32to8, flags, text, |Utf8(text)|).out, |text|).out == text
  {
    EncodeIsUtf(text);
    RoundTrip(C32to8, flags, back, text, |Utf8(text)|, |text|);
  }

  lemma RoundTrip8Through16(bytes: seq<UTF32>, flags: ConversionFlags, back: ConversionFlags, room: nat)
    requires WellFormed(bytes) && room >= |bytes|
    ensures Run(C16to8, back, Run(C8to16, flags, bytes, room).out, |bytes|).out == bytes
  {
    var text := WellFormedIsEncoded(bytes);
    EncodeIsUtf(text);
    Utf16IsNoLonger(text);
    RoundTrip(C8to16, flags, back, text, room, |bytes|);
  }

  lemma {:induction false} Utf16IsNoLonger(text: seq<Scalar>)
    ensures |text| <= |Utf16(text)| <= |Utf8(text)|
    decreases |text|
  {
    if |text| > 0 {
      Utf16IsNoLonger(text[1..]);
    }
  }

  /** UTF-8 to UTF-16 directly equals going through UTF-32. */
  lemma Triangle(bytes: seq<UTF32>, f1: ConversionFlags, f2: ConversionFlags, f3: ConversionFlags, room: nat)
    requires WellFormed(bytes) && room >= |bytes|
    ensures Run(C8to16, f1, bytes, room).out == Run(C32to16, f2, Run(C8to32, f3, bytes, room).out, room).out
  {
    hide Run;
    var text := WellFormedIsEncoded(bytes);
    EncodeIsUtf(text);
    Utf16IsNoLonger(text);
    ConvertsText(C8to16, f1, text, room);
    ConvertsText(C8to32, f3, text, room);
    ConvertsText(C32to16, f2, text, room);
  }
}
