/** The loops of ConvertUTF.cpp, writing their target arrays in place; each delivers exactly what `Run` says. */
module UtfLoops {
  import opened Unicode
  import opened ConvertUtf

  // ---------------------------------------------------------------- contract and loop invariant

  /** The call returned `result`, moved the pointers to `read` and `end`, and changed only target[start..end]. */
  ghost predicate Delivers(c: Converter, flags: ConversionFlags, source: seq<UTF32>, before: seq<UTF32>, start: nat,
                           after: seq<UTF32>, result: ConversionResult, read: nat, end: nat)
    requires start <= |before|
  {
    var o := Run(c, flags, source, |before| - start);
    && result == o.result && read == o.read && end == start + |o.out|
    && after == before[..start] + o.out + before[end..]
  }

  ghost predicate InLoop(c: Converter, flags: ConversionFlags, source: seq<UTF32>, before: seq<UTF32>, start: nat,
                         now: seq<UTF32>, result: ConversionResult, pos: nat, end: nat)
  {
    && pos <= |source| && start <= end <= |before| == |now|
    && now == before[..start] + now[start..end] + before[end..]
    && (result == ConversionOK || result == SourceIllegal)
    && Run(c, flags, source, |before| - start)
       == Outcome(result, pos, now[start..end]).Then(Run(c, flags, source[pos..], |before| - end))
  }

  lemma LoopStarts(c: Converter, flags: ConversionFlags, source: seq<UTF32>, before: seq<UTF32>, start: nat)
    requires start <= |before|
    ensures InLoop(c, flags, source, before, start, before, ConversionOK, 0, start)
  {
    hide Run;
    assert source[0..] == source;
  }

  lemma LoopEmits(c: Converter, flags: ConversionFlags, source: seq<UTF32>, before: seq<UTF32>, start: nat,
                  now: seq<UTF32>, result: ConversionResult, pos: nat, end: nat, now': seq<UTF32>, step: Step)
    requires InLoop(c, flags, source, before, start, now, result, pos, end) && pos < |source|
    requires step == StepOf(c, flags, source[pos..], |before| - end) && step.Emit?
    requires now' == now[..end] + step.units + now[end + |step.units|..]
    ensures InLoop(c, flags, source, before, start, now', if step.illegal then SourceIllegal else result,
                   pos + step.read, end + |step.units|)
  {
    hide StepOf;
    var Emit(n, units, illegal) := step;
    var rest := Run(c, flags, source[pos..][n..], |before| - end - |units|);
    assert source[pos..][n..] == source[pos + n..];
    assert now'[start..end + |units|] == now[start..end] + units;
    assert now[start..end] + (units + rest.out) == now[start..end] + units + rest.out;
  }

  lemma LoopStops(c: Converter, flags: ConversionFlags, source: seq<UTF32>, before: seq<UTF32>, start: nat,
                  now: seq<UTF32>, result: ConversionResult, pos: nat, end: nat, stop: ConversionResult)
    requires InLoop(c, flags, source, before, start, now, result, pos, end) && pos < |source|
    requires StepOf(c, flags, source[pos..], |before| - end) == Stop(stop) && stop != ConversionOK
    ensures Delivers(c, flags, source, before, start, now, stop, pos, end)
  {
    hide StepOf;
    assert now[start..end] + [] == now[start..end];
  }

  lemma LoopEnds(c: Converter, flags: ConversionFlags, source: seq<UTF32>, before: seq<UTF32>, start: nat,
                 now: seq<UTF32>, result: ConversionResult, end: nat)
    requires InLoop(c, flags, source, before, start, now, result, |source|, end)
    ensures Delivers(c, flags, source, before, start, now, result, |source|, end)
  {
    assert now[start..end] + [] == now[start..end];
  }

  // ---------------------------------------------------------------- reading and checking UTF-8

  /** isLegalUTF8, called as it asks to be: with the length that the first byte announces. */
  method IsLegalUTF8(source: seq<UTF8>, at: nat, length: nat) returns (legal: bool)
    requires at < |source| && length == TrailingBytes(source[at]) + 1 && at + length <= |source|
    ensures legal <==> Legal(source[at..at + length])
  {
    ghost var s := source[at..at + length];
    var first := source[at];
    var srcptr := at + length;
    if length > 4 {
      return false;
    }
    if length >= 4 {
      srcptr := srcptr - 1;
      if source[srcptr] < 0x80 || source[srcptr] > 0xBF {
        assert !IsTail(s[3]);
        return false;
      }
    }
    if length >= 3 {
      srcptr := srcptr - 1;
      if source[srcptr] < 0x80 || source[srcptr] > 0xBF {
        assert !IsTail(s[2]);
        return false;
      }
    }
    if length >= 2 {
      srcptr := srcptr - 1;
      var a := source[srcptr];
      assert a == s[1];
      if a > 0xBF {
        return false;
      }
      if first == 0xE0 {
        if a < 0xA0 { return false; }
      } else if first == 0xED {
        if a > 0x9F { return false; }
      } else if first == 0xF0 {
        if a < 0x90 { return false; }
      } else if first == 0xF4 {
        if a > 0x8F { return false; }
      } else if a < 0x80 {
        return false;
      }
    }
    if 0x80 <= first < 0xC2 {
      return false;
    }
    legal := first <= 0xF4;
  }

  /** The reading switch, `AddByte` being `ch += *source++; ch <<= 6`; lengths above 4 never pass the check before. */
  method ReadChar(source: seq<UTF8>, at: nat, extraBytesToRead: nat) returns (ch: UTF32, pos: nat)
    requires extraBytesToRead <= 3 && at + extraBytesToRead < |source|
    ensures pos == at + extraBytesToRead + 1 && ch == ReadValue(source[at..pos])
  {
    hide AddByte;
    hide AddLast;
    ch, pos := 0, at;
    if extraBytesToRead >= 3 {
      ch, pos := AddByte(ch, source[pos]), pos + 1;
    }
    if extraBytesToRead >= 2 {
      ch, pos := AddByte(ch, source[pos]), pos + 1;
    }
    if extraBytesToRead >= 1 {
      ch, pos := AddByte(ch, source[pos]), pos + 1;
    }
    ch, pos := AddLast(ch, source[pos], OffsetFromUTF8(extraBytesToRead)), pos + 1;
  }

  /** offsetsFromUTF8. */
  function OffsetFromUTF8(extraBytesToRead: nat): UTF32 {
    if extraBytesToRead == 0 then 0 else if extraBytesToRead == 1 then 0x3080
    else if extraBytesToRead == 2 then 0xE2080 else if extraBytesToRead == 3 then 0x3C82080
    else if extraBytesToRead == 4 then 0xFA082080 else 0x82082080
  }

  /** What the target holds while a character is written backwards: its last bytes, up to `end`. */
  predicate Holds(target: seq<UTF8>, before: seq<UTF8>, t: nat, tail: seq<UTF8>, end: nat) {
    t + |tail| == end <= |before| && target == before[..t] + tail + before[end..]
  }

  /** `*--target = b`. */
  method PutBack(target: array<UTF8>, t: nat, b: UTF8, ghost before: seq<UTF8>, ghost tail: seq<UTF8>, ghost end: nat)
    returns (t': nat)
    requires 0 < t && Holds(target[..], before, t, tail, end)
    modifies target
    ensures t' == t - 1 && Holds(target[..], before, t', [b] + tail, end)
  {
    t' := t - 1;
    target[t'] := b;
  }

  /** The writing switch, filling target[at..at + bytesToWrite] from its end. */
  method WriteChar(target: array<UTF8>, at: nat, value: UTF32, bytesToWrite: nat)
    requires 1 <= bytesToWrite <= 4 && at + bytesToWrite <= target.Length
    modifies target
    ensures target[..] == old(target[..at]) + WrittenBytes(value, bytesToWrite) + old(target[at + bytesToWrite..])
  {
    hide MarkedByte;
    hide FirstByte;
    hide Drop;
    ghost var before, tail, end := target[..], [], at + bytesToWrite;
    var ch, t := value, at + bytesToWrite;
    assert Holds(target[..], before, t, tail, end);
    hide Holds;
    if bytesToWrite >= 4 {
      t := PutBack(target, t, MarkedByte(ch), before, tail, end);
      tail, ch := [MarkedByte(ch)] + tail, Drop(ch);
    }
    if bytesToWrite >= 3 {
      t := PutBack(target, t, MarkedByte(ch), before, tail, end);
      tail, ch := [MarkedByte(ch)] + tail, Drop(ch);
    }
    if bytesToWrite >= 2 {
      t := PutBack(target, t, MarkedByte(ch), before, tail, end);
      tail, ch := [MarkedByte(ch)] + tail, Drop(ch);
    }
    t := PutBack(target, t, FirstByte(ch, bytesToWrite), before, tail, end);
    tail := [FirstByte(ch, bytesToWrite)] + tail;
    assert tail == WrittenBytes(value, bytesToWrite);
    HoldsAll(target[..], before, t, tail, end);
  }

  lemma HoldsAll(target: seq<UTF8>, before: seq<UTF8>, t: nat, tail: seq<UTF8>, end: nat)
    requires Holds(target, before, t, tail, end)
    ensures t + |tail| == end <= |before| && target == before[..t] + tail + before[end..]
  {
  }

  // ---------------------------------------------------------------- the loops

  lemma LegalLength(s: seq<UTF32>)
    requires Legal(s)
    ensures |s| <= 4
  {
  }

  method ConvertUTF32toUTF16(source: seq<UTF32>, target: array<UTF16>, targetStart: nat, flags: ConversionFlags)
    returns (result: ConversionResult, pos: nat, end: nat)
    requires targetStart <= target.Length
    modifies target
    ensures Delivers(C32to16, flags, source, old(target[..]), targetStart, target[..], result, pos, end)
  {
    hide Run;
    hide InLoop;
    hide Delivers;
    hide HighHalf;
    hide LowHalf;
    ghost var before := target[..];
    result, pos, end := ConversionOK, 0, targetStart;
    LoopStarts(C32to16, flags, source, before, targetStart);
    while pos < |source|
      invariant pos <= |source| && targetStart <= end <= target.Length
      invariant InLoop(C32to16, flags, source, before, targetStart, target[..], result, pos, end)
    {
      ghost var step := StepOf(C32to16, flags, source[pos..], |before| - end);
      ghost var now, code, start, room := target[..], result, pos, end;
      if end >= target.Length {
        LoopStops(C32to16, flags, source, before, targetStart, now, code, pos, end, TargetExhausted);
        result := TargetExhausted;
        return;
      }
      var ch := source[pos];
      pos := pos + 1;
      if ch <= UNI_MAX_BMP {
        if IsSurrogate(ch) {
          if flags == StrictConversion {
            pos := pos - 1;
            LoopStops(C32to16, flags, source, before, targetStart, now, code, pos, end, SourceIllegal);
            result := SourceIllegal;
            return;
          } else {
            target[end], end := UNI_REPLACEMENT_CHAR, end + 1;
          }
        } else {
          target[end], end := ch, end + 1;
        }
      } else if ch > UNI_MAX_LEGAL_UTF32 {
        if flags == StrictConversion {
          result := SourceIllegal;
        } else {
          target[end], end := UNI_REPLACEMENT_CHAR, end + 1;
        }
      } else {
        if end + 1 >= target.Length {
          pos := pos - 1;
          LoopStops(C32to16, flags, source, before, targetStart, now, code, pos, end, TargetExhausted);
          result := TargetExhausted;
          return;
        }
        target[end], end := HighHalf(ch), end + 1;
        target[end], end := LowHalf(ch), end + 1;
      }
      LoopEmits(C32to16, flags, source, before, targetStart, now, code, start, room, target[..], step);
    }
    LoopEnds(C32to16, flags, source, before, targetStart, target[..], result, end);
  }

  method ConvertUTF16toUTF32(source: seq<UTF16>, target: array<UTF32>, targetStart: nat, flags: ConversionFlags)
    returns (result: ConversionResult, pos: nat, end: nat)
    requires targetStart <= target.Length
    modifies target
    ensures Delivers(C16to32, flags, source, old(target[..]), targetStart, target[..], result, pos, end)
  {
    hide Run;
    hide InLoop;
    hide Delivers;
    hide FromPair;
    ghost var before := target[..];
    result, pos, end := ConversionOK, 0, targetStart;
    LoopStarts(C16to32, flags, source, before, targetStart);
    while pos < |source|
      invariant pos <= |source| && targetStart <= end <= target.Length
      invariant InLoop(C16to32, flags, source, before, targetStart, target[..], result, pos, end)
    {
      ghost var step := StepOf(C16to32, flags, source[pos..], |before| - end);
      ghost var now, code, start, room := target[..], result, pos, end;
      var oldSource, ch := pos, source[pos] as UTF32;
      pos := pos + 1;
      if IsHigh(ch) {
        if pos < |source| {
          var ch2 := source[pos];
          if IsLow(ch2) {
            ch, pos := FromPair(ch, ch2), pos + 1;
          } else if flags == StrictConversion {
            pos := pos - 1;
            LoopStops(C16to32, flags, source, before, targetStart, now, code, pos, end, SourceIllegal);
            result := SourceIllegal;
            return;
          }
        } else {
          pos := pos - 1;
          LoopStops(C16to32, flags, source, before, targetStart, now, code, pos, end, SourceExhausted);
          result := SourceExhausted;
          return;
        }
      } else if flags == StrictConversion {
        if IsLow(ch) {
          pos := pos - 1;
          LoopStops(C16to32, flags, source, before, targetStart, now, code, pos, end, SourceIllegal);
          result := SourceIllegal;
          return;
        }
      }
      if end >= target.Length {
        pos := oldSource;
        LoopStops(C16to32, flags, source, before, targetStart, now, code, pos, end, TargetExhausted);
        result := TargetExhausted;
        return;
      }
      target[end], end := ch, end + 1;
      LoopEmits(C16to32, flags, source, before, targetStart, now, code, start, room, target[..], step);
    }
    LoopEnds(C16to32, flags, source, before, targetStart, target[..], result, end);
  }

  method ConvertUTF16toUTF8(source: seq<UTF16>, target: array<UTF8>, targetStart: nat, flags: ConversionFlags)
    returns (result: ConversionResult, pos: nat, end: nat)
    requires targetStart <= target.Length
    modifies target
    ensures Delivers(C16to8, flags, source, old(target[..]), targetStart, target[..], result, pos, end)
  {
    hide Run;
    hide InLoop;
    hide Delivers;
    hide FromPair;
    hide WrittenBytes;
    ghost var before := target[..];
    result, pos, end := ConversionOK, 0, targetStart;
    LoopStarts(C16to8, flags, source, before, targetStart);
    while pos < |source|
      invariant pos <= |source| && targetStart <= end <= target.Length
      invariant InLoop(C16to8, flags, source, before, targetStart, target[..], result, pos, end)
    {
      ghost var step := StepOf(C16to8, flags, source[pos..], |before| - end);
      ghost var now, code, start, room := target[..], result, pos, end;
      var oldSource, ch := pos, source[pos] as UTF32;
      pos := pos + 1;
      if IsHigh(ch) {
        if pos < |source| {
          var ch2 := source[pos];
          if IsLow(ch2) {
            ch, pos := FromPair(ch, ch2), pos + 1;
          } else if flags == StrictConversion {
            pos := pos - 1;
            LoopStops(C16to8, flags, source, before, targetStart, now, code, pos, end, SourceIllegal);
            result := SourceIllegal;
            return;
          }
        } else {
          pos := pos - 1;
          LoopStops(C16to8, flags, source, before, targetStart, now, code, pos, end, SourceExhausted);
          result := SourceExhausted;
          return;
        }
      } else if flags == StrictConversion {
        if IsLow(ch) {
          pos := pos - 1;
          LoopStops(C16to8, flags, source, before, targetStart, now, code, pos, end, SourceIllegal);
          result := SourceIllegal;
          return;
        }
      }
      var bytesToWrite := BytesToWrite(ch);
      if ch > UNI_MAX_LEGAL_UTF32 {
        ch := UNI_REPLACEMENT_CHAR;
      }
      end := end + bytesToWrite;
      if end > target.Length {
        pos, end := oldSource, end - bytesToWrite;
        LoopStops(C16to8, flags, source, before, targetStart, now, code, pos, end, TargetExhausted);
        result := TargetExhausted;
        return;
      }
      WriteChar(target, end - bytesToWrite, ch, bytesToWrite);
      LoopEmits(C16to8, flags, source, before, targetStart, now, code, start, room, target[..], step);
    }
    LoopEnds(C16to8, flags, source, before, targetStart, target[..], result, end);
  }

  method ConvertUTF8toUTF16(source: seq<UTF8>, target: array<UTF16>, targetStart: nat, flags: ConversionFlags)
    returns (result: ConversionResult, pos: nat, end: nat)
    requires targetStart <= target.Length
    modifies target
    ensures Delivers(C8to16, flags, source, old(target[..]), targetStart, target[..], result, pos, end)
  {
    hide Run;
    hide InLoop;
    hide Delivers;
    hide Legal;
    hide ReadValue;
    hide TrailingBytes;
    hide HighHalf;
    hide LowHalf;
    hide Step32to16;
    hide Step16to32;
    hide Step16to8;
    hide Step32to8;
    hide Step8to32;
    hide WellFormedChar;
    ghost var before := target[..];
    result, pos, end := ConversionOK, 0, targetStart;
    LoopStarts(C8to16, flags, source, before, targetStart);
    while pos < |source|
      invariant pos <= |source| && targetStart <= end <= target.Length
      invariant InLoop(C8to16, flags, source, before, targetStart, target[..], result, pos, end)
    {
      ghost var step := StepOf(C8to16, flags, source[pos..], |before| - end);
      ghost var now, code, start, room := target[..], result, pos, end;
      var extraBytesToRead := TrailingBytes(source[pos]);
      if pos + extraBytesToRead >= |source| {
        LoopStops(C8to16, flags, source, before, targetStart, now, code, pos, end, SourceExhausted);
        result := SourceExhausted;
        return;
      }
      assert source[pos..][..extraBytesToRead + 1] == source[pos..pos + extraBytesToRead + 1];
      var legal := IsLegalUTF8(source, pos, extraBytesToRead + 1);
      if !legal {
        LoopStops(C8to16, flags, source, before, targetStart, now, code, pos, end, SourceIllegal);
        result := SourceIllegal;
        return;
      }
      LegalLength(source[pos..pos + extraBytesToRead + 1]);
      var ch;
      ch, pos := ReadChar(source, pos, extraBytesToRead);
      if end >= target.Length {
        pos := pos - (extraBytesToRead + 1);
        LoopStops(C8to16, flags, source, before, targetStart, now, code, pos, end, TargetExhausted);
        result := TargetExhausted;
        return;
      }
      if ch <= UNI_MAX_BMP {
        if IsSurrogate(ch) {
          if flags == StrictConversion {
            pos := pos - (extraBytesToRead + 1);
            LoopStops(C8to16, flags, source, before, targetStart, now, code, pos, end, SourceIllegal);
            result := SourceIllegal;
            return;
          } else {
            target[end], end := UNI_REPLACEMENT_CHAR, end + 1;
          }
        } else {
          target[end], end := ch, end + 1;
        }
      } else if ch > UNI_MAX_LEGAL_UTF32 {
        if flags == StrictConversion {
          pos := pos - (extraBytesToRead + 1);
          LoopStops(C8to16, flags, source, before, targetStart, now, code, pos, end, SourceIllegal);
          result := SourceIllegal;
          return;
        } else {
          target[end], end := UNI_REPLACEMENT_CHAR, end + 1;
        }
      } else {
        if end + 1 >= target.Length {
          pos := pos - (extraBytesToRead + 1);
          LoopStops(C8to16, flags, source, before, targetStart, now, code, pos, end, TargetExhausted);
          result := TargetExhausted;
          return;
        }
        target[end], end := HighHalf(ch), end + 1;
        target[end], end := LowHalf(ch), end + 1;
      }
      LoopEmits(C8to16, flags, source, before, targetStart, now, code, start, room, target[..], step);
    }
    LoopEnds(C8to16, flags, source, before, targetStart, target[..], result, end);
  }

  method ConvertUTF32toUTF8(source: seq<UTF32>, target: array<UTF8>, targetStart: nat, flags: ConversionFlags)
    returns (result: ConversionResult, pos: nat, end: nat)
    requires targetStart <= target.Length
    modifies target
    ensures Delivers(C32to8, flags, source, old(target[..]), targetStart, target[..], result, pos, end)
  {
    hide Run;
    hide InLoop;
    hide Delivers;
    hide WrittenBytes;
    ghost var before := target[..];
    result, pos, end := ConversionOK, 0, targetStart;
    LoopStarts(C32to8, flags, source, before, targetStart);
    while pos < |source|
      invariant pos <= |source| && targetStart <= end <= target.Length
      invariant InLoop(C32to8, flags, source, before, targetStart, target[..], result, pos, end)
    {
      ghost var step := StepOf(C32to8, flags, source[pos..], |before| - end);
      ghost var now, code, start, room := target[..], result, pos, end;
      var ch := source[pos];
      pos := pos + 1;
      if flags == StrictConversion {
        if IsSurrogate(ch) {
          pos := pos - 1;
          LoopStops(C32to8, flags, source, before, targetStart, now, code, pos, end, SourceIllegal);
          result := SourceIllegal;
          return;
        }
      }
      var bytesToWrite := BytesToWrite(ch);
      if ch > UNI_MAX_LEGAL_UTF32 {
        ch := UNI_REPLACEMENT_CHAR;
        result := SourceIllegal;
      }
      end := end + bytesToWrite;
      if end > target.Length {
        pos, end := pos - 1, end - bytesToWrite;
        LoopStops(C32to8, flags, source, before, targetStart, now, code, pos, end, TargetExhausted);
        result := TargetExhausted;
        return;
      }
      WriteChar(target, end - bytesToWrite, ch, bytesToWrite);
      LoopEmits(C32to8, flags, source, before, targetStart, now, code, start, room, target[..], step);
    }
    LoopEnds(C32to8, flags, source, before, targetStart, target[..], result, end);
  }

  method ConvertUTF8toUTF32(source: seq<UTF8>, target: array<UTF32>, targetStart: nat, flags: ConversionFlags)
    returns (result: ConversionResult, pos: nat, end: nat)
    requires targetStart <= target.Length
    modifies target
    ensures Delivers(C8to32, flags, source, old(target[..]), targetStart, target[..], result, pos, end)
  {
    hide Run;
    hide InLoop;
    hide Delivers;
    hide Legal;
    hide ReadValue;
    hide TrailingBytes;
    ghost var before := target[..];
    result, pos, end := ConversionOK, 0, targetStart;
    LoopStarts(C8to32, flags, source, before, targetStart);
    while pos < |source|
      invariant pos <= |source| && targetStart <= end <= target.Length
      invariant InLoop(C8to32, flags, source, before, targetStart, target[..], result, pos, end)
    {
      ghost var step := StepOf(C8to32, flags, source[pos..], |before| - end);
      ghost var now, code, start, room := target[..], result, pos, end;
      var extraBytesToRead := TrailingBytes(source[pos]);
      if pos + extraBytesToRead >= |source| {
        LoopStops(C8to32, flags, source, before, targetStart, now, code, pos, end, SourceExhausted);
        result := SourceExhausted;
        return;
      }
      assert source[pos..][..extraBytesToRead + 1] == source[pos..pos + extraBytesToRead + 1];
      var legal := IsLegalUTF8(source, pos, extraBytesToRead + 1);
      if !legal {
        LoopStops(C8to32, flags, source, before, targetStart, now, code, pos, end, SourceIllegal);
        result := SourceIllegal;
        return;
      }
      LegalLength(source[pos..pos + extraBytesToRead + 1]);
      var ch;
      ch, pos := ReadChar(source, pos, extraBytesToRead);
      if end >= target.Length {
        pos := pos - (extraBytesToRead + 1);
        LoopStops(C8to32, flags, source, before, targetStart, now, code, pos, end, TargetExhausted);
        result := TargetExhausted;
        return;
      }
      if ch <= UNI_MAX_LEGAL_UTF32 {
        if IsSurrogate(ch) {
          if flags == StrictConversion {
            pos := pos - (extraBytesToRead + 1);
            LoopStops(C8to32, flags, source, before, targetStart, now, code, pos, end, SourceIllegal);
            result := SourceIllegal;
            return;
          } else {
            target[end], end := UNI_REPLACEMENT_CHAR, end + 1;
          }
        } else {
          target[end], end := ch, end + 1;
        }
      } else {
        result := SourceIllegal;
        target[end], end := UNI_REPLACEMENT_CHAR, end + 1;
      }
      LoopEmits(C8to32, flags, source, before, targetStart, now, code, start, room, target[..], step);
    }
    LoopEnds(C8to32, flags, source, before, targetStart, target[..], result, end);
  }
}
