/** What the converters do to sources that are no encoded texts: where they stop, and what lenient conversion writes. */
module UtfLenient {
  import opened Unicode
  import opened ConvertUtf
  import opened UtfTexts

  // ---------------------------------------------------------------- a text, and then something else

  lemma ThenAssoc(a: Outcome, b: Outcome, c: Outcome)
    ensures a.Then(b).Then(c) == a.Then(b.Then(c))
  {
    assert a.out + b.out + c.out == a.out + (b.out + c.out);
  }

  lemma NothingThen(o: Outcome)
    ensures Outcome(ConversionOK, 0, []).Then(o) == o
  {
  }

  lemma TurnThenRest(c: Converter, flags: ConversionFlags, head: seq<UTF32>, rest: seq<UTF32>, room: nat,
                     units: seq<UTF32>, illegal: bool)
    requires |head| > 0 && |units| <= room
    requires StepOf(c, flags, head + rest, room) == Emit(|head|, units, illegal)
    ensures Run(c, flags, head + rest, room)
         == OneTurn(|head|, units, illegal).Then(Run(c, flags, rest, room - |units|))
  {
    hide StepOf;
    hide OneTurn;
    hide Outcome.Then;
    assert (head + rest)[|head|..] == rest;
  }

  /** A text in front of anything is converted, and then the rest is. */
  lemma {:induction false} TextThenRest(c: Converter, flags: ConversionFlags, text: seq<Scalar>, rest: seq<UTF32>,
                                        room: nat)
    requires room >= |Encode(To(c), text)|
    ensures Run(c, flags, Encode(From(c), text) + rest, room)
         == Outcome(ConversionOK, |Encode(From(c), text)|, Encode(To(c), text)).
              Then(Run(c, flags, rest, room - |Encode(To(c), text)|))
    decreases |text|
  {
    hide Run;
    hide StepOf;
    hide EncodeChar;
    hide Outcome.Then;
    if |text| == 0 {
      assert Encode(From(c), text) + rest == rest;
      NothingThen(Run(c, flags, rest, room));
    } else {
      var head, more := EncodeChar(From(c), text[0]), Encode(From(c), text[1..]) + rest;
      var out, room' := EncodeChar(To(c), text[0]), room - |EncodeChar(To(c), text[0])|;
      var others := Outcome(ConversionOK, |Encode(From(c), text[1..])|, Encode(To(c), text[1..]));
      assert Encode(From(c), text) + rest == head + more;
      StepOnChar(c, flags, text[0], more, room);
      TurnThenRest(c, flags, head, more, room, out, false);
      TextThenRest(c, flags, text[1..], rest, room');
      ThenAssoc(OneTurn(|head|, out, false), others, Run(c, flags, rest, room' - |others.out|));
      TurnAndText(|head|, out, others);
    }
  }

  lemma TurnAndText(n: nat, out: seq<UTF32>, others: Outcome)
    requires others.result == ConversionOK
    ensures OneTurn(n, out, false).Then(others) == Outcome(ConversionOK, n + others.read, out + others.out)
  {
  }

  /** The source starts with what no text starts with, whatever follows. */
  predicate IllStart(c: Converter, src: seq<UTF32>) {
    && |src| > 0
    && match From(c)
       case F32 => IsSurrogate(src[0])
       case F16 => IsLow(src[0]) || (IsHigh(src[0]) && |src| > 1 && !IsLow(src[1]))
       case F8 => TrailingBytes(src[0]) < |src| && !Legal(src[..TrailingBytes(src[0]) + 1])
  }

  /** The source ends in the middle of a character, or in a high surrogate. */
  predicate CutShort(c: Converter, src: seq<UTF32>) {
    && |src| > 0
    && match From(c)
       case F32 => false
       case F16 => IsHigh(src[0]) && |src| == 1
       case F8 => TrailingBytes(src[0]) >= |src|
  }

  lemma IllStarts(c: Converter, bad: seq<UTF32>, room: nat)
    requires IllStart(c, bad) && room > 0
    ensures Run(c, StrictConversion, bad, room) == Outcome(SourceIllegal, 0, [])
  {
    hide Legal;
    hide ReadValue;
    hide TrailingBytes;
    hide WrittenBytes;
    hide FromPair;
    hide HighHalf;
    hide LowHalf;
    assert StepOf(c, StrictConversion, bad, room) == Stop(SourceIllegal);
  }

  lemma CutShortIs(c: Converter, flags: ConversionFlags, bad: seq<UTF32>, room: nat)
    requires CutShort(c, bad)
    ensures Run(c, flags, bad, room) == Outcome(SourceExhausted, 0, [])
  {
    hide Legal;
    hide ReadValue;
    hide TrailingBytes;
    hide WrittenBytes;
    hide FromPair;
    hide HighHalf;
    hide LowHalf;
    assert StepOf(c, flags, bad, room) == Stop(SourceExhausted);
  }

  lemma ThenStop(o: Outcome, result: ConversionResult)
    requires result != ConversionOK
    ensures o.Then(Outcome(result, 0, [])) == Outcome(result, o.read, o.out)
  {
    assert o.out + [] == o.out;
  }

  /** Strict conversion stops in front of the first character that is no part of a text, with all before it written. */
  lemma StopsAtFirstIllegal(c: Converter, text: seq<Scalar>, bad: seq<UTF32>, room: nat)
    requires IllStart(c, bad) && room > |Encode(To(c), text)|
    ensures Run(c, StrictConversion, Encode(From(c), text) + bad, room)
         == Outcome(SourceIllegal, |Encode(From(c), text)|, Encode(To(c), text))
  {
    hide Run;
    hide Encode;
    hide IllStart;
    hide Outcome.Then;
    TextThenRest(c, StrictConversion, text, bad, room);
    IllStarts(c, bad, room - |Encode(To(c), text)|);
    ThenStop(Outcome(ConversionOK, |Encode(From(c), text)|, Encode(To(c), text)), SourceIllegal);
  }

  /** In either mode a source that ends in the middle of a character is exhausted there. */
  lemma StopsWhereCutShort(c: Converter, flags: ConversionFlags, text: seq<Scalar>, bad: seq<UTF32>, room: nat)
    requires CutShort(c, bad) && room >= |Encode(To(c), text)|
    ensures Run(c, flags, Encode(From(c), text) + bad, room)
         == Outcome(SourceExhausted, |Encode(From(c), text)|, Encode(To(c), text))
  {
    hide Run;
    hide Encode;
    hide CutShort;
    hide Outcome.Then;
    TextThenRest(c, flags, text, bad, room);
    CutShortIs(c, flags, bad, room - |Encode(To(c), text)|);
    ThenStop(Outcome(ConversionOK, |Encode(From(c), text)|, Encode(To(c), text)), SourceExhausted);
  }

  // ---------------------------------------------------------------- UTF-32 in lenient mode

  predicate IsScalar(u: UTF32) { u < 0xD800 || 0xE000 <= u <= 0x10FFFF }

  /** Every unit that is no scalar value becomes U+FFFD. */
  function Repaired(src: seq<UTF32>): (text: seq<Scalar>)
    ensures |text| == |src| && forall i :: 0 <= i < |src| ==> text[i] == if IsScalar(src[i]) then src[i] else 0xFFFD
  {
    if |src| == 0 then [] else [if IsScalar(src[0]) then src[0] else 0xFFFD] + Repaired(src[1..])
  }

  lemma ReplaceStep(u: UTF32, rest: seq<UTF32>, room: nat)
    requires !IsScalar(u) && room > 0
    ensures StepOf(C32to16, LenientConversion, [u] + rest, room) == Emit(1, [0xFFFD], false)
  {
    hide HighHalf;
    hide LowHalf;
  }

  lemma RepairStep(u: UTF32, rest: seq<UTF32>, room: nat)
    requires room >= |Utf16Of(if IsScalar(u) then u else 0xFFFD)|
    ensures StepOf(C32to16, LenientConversion, [u] + rest, room)
         == Emit(1, Utf16Of(if IsScalar(u) then u else 0xFFFD), false)
  {
    hide StepOf;
    hide HighSurrogate;
    hide LowSurrogate;
    if IsScalar(u) {
      StepOnChar(C32to16, LenientConversion, u, rest, room);
    } else {
      ReplaceStep(u, rest, room);
    }
  }

  /** Lenient conversion from UTF-32 to UTF-16 succeeds on any source and gives the UTF-16 of its repair. */
  lemma {:induction false} LenientRepairs(src: seq<UTF32>, room: nat)
    requires room >= |Utf16(Repaired(src))|
    ensures Run(C32to16, LenientConversion, src, room) == Outcome(ConversionOK, |src|, Utf16(Repaired(src)))
    decreases |src|
  {
    hide StepOf;
    hide Utf16Of;
    if |src| > 0 {
      assert src == [src[0]] + src[1..];
      RepairStep(src[0], src[1..], room);
      LenientRepairs(src[1..], room - |Utf16Of(Repaired(src)[0])|);
    }
  }

  // ---------------------------------------------------------------- code points

  /** A scalar value or a surrogate. */
  type CodePoint = u: UTF32 | u <= 0x10FFFF

  /** Table 3-6 applied to surrogates too. */
  function BytesOf(u: CodePoint): (s: seq<UTF8>)
    ensures 1 <= |s| <= 4
  {
    if IsScalar(u) then Utf8Of(u) else [Lead3(u), Trail6(u), Trail0(u)]
  }

  function AllBytes(us: seq<CodePoint>): seq<UTF8> {
    if |us| == 0 then [] else BytesOf(us[0]) + AllBytes(us[1..])
  }

  lemma SurrogateBytes(u: UTF32)
    requires IsSurrogate(u)
    ensures BytesToWrite(u) == 3 && WrittenBytes(u, 3) == [Lead3(u), Trail6(u), Trail0(u)]
  {
  }

  lemma WritesCodePoint(u: CodePoint)
    ensures WrittenBytes(u, BytesToWrite(u)) == BytesOf(u)
  {
    hide WrittenBytes;
    hide BytesToWrite;
    if IsScalar(u) {
      WritesUtf8(u);
    } else {
      SurrogateBytes(u);
    }
  }

  /** What lenient conversion to UTF-8 makes of a unit: one out of range becomes U+FFFD. */
  function InRange(src: seq<UTF32>): (us: seq<CodePoint>)
    ensures |us| == |src| && forall i :: 0 <= i < |src| ==> us[i] == if src[i] <= 0x10FFFF then src[i] else 0xFFFD
  {
    if |src| == 0 then [] else [if src[0] <= 0x10FFFF then src[0] else 0xFFFD] + InRange(src[1..])
  }

  lemma ReplacementBytes()
    ensures WrittenBytes(UNI_REPLACEMENT_CHAR, 3) == BytesOf(0xFFFD)
  {
    WritesCodePoint(0xFFFD);
  }

  lemma RangeStep(u: UTF32, rest: seq<UTF32>, room: nat)
    ensures var v: CodePoint := if u <= 0x10FFFF then u else 0xFFFD;
      room >= |BytesOf(v)| ==>
        StepOf(C32to8, LenientConversion, [u] + rest, room) == Emit(1, BytesOf(v), u > 0x10FFFF)
  {
    hide BytesOf;
    hide WrittenBytes;
    if u <= 0x10FFFF {
      WritesCodePoint(u);
    } else {
      ReplacementBytes();
    }
  }

  predicate OutOfRange(src: seq<UTF32>) { exists i :: 0 <= i < |src| && src[i] > 0x10FFFF }

  lemma NoneOutOfRange(src: seq<UTF32>)
    requires |src| == 0
    ensures !OutOfRange(src)
  {
  }

  lemma FirstOutOfRange(src: seq<UTF32>)
    requires |src| > 0
    ensures OutOfRange(src) <==> src[0] > 0x10FFFF || OutOfRange(src[1..])
  {
    if i :| 0 < i < |src| && src[i] > 0x10FFFF {
      assert src[1..][i - 1] == src[i];
    }
  }

  /** Lenient conversion from UTF-32 to UTF-8 goes to the end, and says whether some unit was out of range. */
  lemma {:induction false} LenientKeepsSurrogates(src: seq<UTF32>, room: nat)
    requires room >= |AllBytes(InRange(src))|
    ensures Run(C32to8, LenientConversion, src, room)
         == Outcome(if OutOfRange(src) then SourceIllegal else ConversionOK, |src|, AllBytes(InRange(src)))
    decreases |src|
  {
    hide StepOf;
    hide BytesOf;
    hide OutOfRange;
    if |src| == 0 {
      assert !OutOfRange(src) by { NoneOutOfRange(src); }
    } else {
      FirstOutOfRange(src);
      assert src == [src[0]] + src[1..];
      RangeStep(src[0], src[1..], room);
      LenientKeepsSurrogates(src[1..], room - |BytesOf(InRange(src)[0])|);
    }
  }

  // ---------------------------------------------------------------- units out of range in strict mode

  predicate NoSurrogates(src: seq<UTF32>) { forall i :: 0 <= i < |src| ==> !IsSurrogate(src[i]) }

  /** The units that are scalar values, in their order. */
  function Kept(src: seq<UTF32>): seq<Scalar>
    requires NoSurrogates(src)
  {
    if |src| == 0 then [] else (if src[0] > 0x10FFFF then [] else [src[0]]) + Kept(src[1..])
  }

  lemma DropStep(u: UTF32, rest: seq<UTF32>, room: nat)
    requires !IsSurrogate(u) && room > 0 && (u <= 0x10FFFF ==> room >= |Utf16Of(u)|)
    ensures StepOf(C32to16, StrictConversion, [u] + rest, room)
         == if u > 0x10FFFF then Emit(1, [], true) else Emit(1, Utf16Of(u), false)
  {
    hide HighHalf;
    hide LowHalf;
    hide HighSurrogate;
    hide LowSurrogate;
    if u <= 0x10FFFF {
      StepOnChar(C32to16, StrictConversion, u, rest, room);
    }
  }

  lemma Utf16OfKept(src: seq<UTF32>)
    requires |src| > 0 && NoSurrogates(src)
    ensures Utf16(Kept(src)) == (if src[0] > 0x10FFFF then [] else Utf16Of(src[0])) + Utf16(Kept(src[1..]))
  {
    hide Utf16Of;
    if src[0] > 0x10FFFF {
      assert Kept(src) == Kept(src[1..]);
    } else {
      assert Kept(src) == [src[0]] + Kept(src[1..]);
      assert Kept(src)[1..] == Kept(src[1..]);
    }
  }

  /** Strict conversion from UTF-32 to UTF-16 leaves out what is out of range, goes on to the end, and says so. */
  lemma {:induction false} StrictDropsOutOfRange(src: seq<UTF32>, room: nat)
    requires NoSurrogates(src) && room > |Utf16(Kept(src))|
    ensures Run(C32to16, StrictConversion, src, room)
         == Outcome(if OutOfRange(src) then SourceIllegal else ConversionOK, |src|, Utf16(Kept(src)))
    decreases |src|
  {
    hide StepOf;
    hide Utf16Of;
    hide OutOfRange;
    if |src| == 0 {
      assert !OutOfRange(src) by { NoneOutOfRange(src); }
    } else {
      FirstOutOfRange(src);
      Utf16OfKept(src);
      assert src == [src[0]] + src[1..];
      DropStep(src[0], src[1..], room);
      hide Kept;
      StrictDropsOutOfRange(src[1..], room - if src[0] > 0x10FFFF then 0 else |Utf16Of(src[0])|);
    }
  }

  /** Strict conversion from UTF-32 to UTF-8 does with it what lenient conversion does. */
  lemma {:induction false} StrictReplacesOutOfRange(src: seq<UTF32>, room: nat)
    requires NoSurrogates(src)
    ensures Run(C32to8, StrictConversion, src, room) == Run(C32to8, LenientConversion, src, room)
    decreases |src|
  {
    if |src| > 0 {
      assert StepOf(C32to8, StrictConversion, src, room) == StepOf(C32to8, LenientConversion, src, room);
      var step := StepOf(C32to8, StrictConversion, src, room);
      hide StepOf;
      if step.Emit? {
        assert step.read == 1 by { TakesOne(src, room); }
        StrictReplacesOutOfRange(src[1..], room - |step.units|);
      }
    }
  }

  lemma TakesOne(src: seq<UTF32>, room: nat)
    requires |src| > 0
    ensures var step := StepOf(C32to8, StrictConversion, src, room); step.Emit? ==> step.read == 1
  {
    hide WrittenBytes;
  }

  // ---------------------------------------------------------------- UTF-16 in lenient mode

  function UnitsOf(u: CodePoint): (s: seq<UTF16>)
    ensures 1 <= |s| <= 2
  {
    if u <= 0xFFFF then [u] else [HighSurrogate(u), LowSurrogate(u)]
  }

  function AllUnits(us: seq<CodePoint>): seq<UTF16> {
    if |us| == 0 then [] else UnitsOf(us[0]) + AllUnits(us[1..])
  }

  /** No surrogates in the list pair up, and none waits for its pair at the end. */
  predicate Unpaired(us: seq<CodePoint>) {
    forall i :: 0 <= i < |us| && IsHigh(us[i]) ==> i + 1 < |us| && !IsLow(us[i + 1])
  }

  function OutOf(c: Converter, u: CodePoint): seq<UTF32> { if c == C16to8 then BytesOf(u) else [u] }

  function AllOut(c: Converter, us: seq<CodePoint>): seq<UTF32> {
    if |us| == 0 then [] else OutOf(c, us[0]) + AllOut(c, us[1..])
  }

  lemma NextUnit(us: seq<CodePoint>)
    requires |us| > 0
    ensures |AllUnits(us)| > 0 && (IsLow(AllUnits(us)[0]) <==> IsLow(us[0]))
  {
    if us[0] > 0xFFFF {
      SurrogateFields(us[0]);
    }
  }

  lemma CodePointStep(c: Converter, u: CodePoint, rest: seq<UTF32>, room: nat)
    requires From(c) == F16 && room >= |OutOf(c, u)|
    requires IsHigh(u) ==> |rest| > 0 && !IsLow(rest[0])
    ensures StepOf(c, LenientConversion, UnitsOf(u) + rest, room) == Emit(|UnitsOf(u)|, OutOf(c, u), false)
  {
    hide BytesOf;
    hide WrittenBytes;
    hide HighSurrogate;
    hide LowSurrogate;
    hide FromPair;
    WritesCodePoint(u);
    if u > 0xFFFF {
      SurrogateFields(u);
      PairsUp(u);
    }
  }

  /** Lenient conversion from UTF-16 joins the pairs and passes every surrogate on that is not in one. */
  lemma {:induction false} LenientPassesSurrogates(c: Converter, us: seq<CodePoint>, room: nat)
    requires From(c) == F16 && Unpaired(us) && room >= |AllOut(c, us)|
    ensures Run(c, LenientConversion, AllUnits(us), room) == Outcome(ConversionOK, |AllUnits(us)|, AllOut(c, us))
    decreases |us|
  {
    hide StepOf;
    hide UnitsOf;
    hide OutOf;
    if |us| == 0 {
    } else {
      hide Run;
      var head, rest := UnitsOf(us[0]), AllUnits(us[1..]);
      if |us| > 1 {
        NextUnit(us[1..]);
      }
      CodePointStep(c, us[0], rest, room);
      TurnThenRest(c, LenientConversion, head, rest, room, OutOf(c, us[0]), false);
      LenientPassesSurrogates(c, us[1..], room - |OutOf(c, us[0])|);
    }
  }
}
