/** runtime/linenoise-ng/linenoise.cpp: copyString8to32 and readUnicodeCharacter, the byte-at-a-time decoder. */
module Keyboard {
  import opened Unicode
  import opened ConvertUtf
  import opened UtfLoops
  import UtfTexts

  /** What one call returns, the bytes it keeps for the next call, and the input it leaves. */
  datatype Reading = Reading(ch: UTF32, pending: seq<UTF32>, rest: seq<UTF32>)

  function ReadOne(pending: seq<UTF32>, bytes: seq<UTF32>): Reading
    decreases |bytes|
  {
    if |bytes| == 0 then Reading(0, pending, [])
    else if bytes[0] <= 0x7F then Reading(bytes[0], [], bytes[1..])
    else if |pending| < 4 then
      var o := Run(C8to32, LenientConversion, pending + [bytes[0]], 2);
      if o.result == ConversionOK && |o.out| > 0 then Reading(o.out[0], [], bytes[1..])
      else ReadOne(pending + [bytes[0]], bytes[1..])
    else ReadOne([], bytes[1..])
  }

  // ---------------------------------------------------------------- the code

  method StrLen(s: array<UTF8>, ghost n: nat) returns (length: nat)
    requires n < s.Length && s[n] == 0 && forall i :: 0 <= i < n ==> s[i] != 0
    ensures length == n
  {
    length := 0;
    while s[length] != 0
      invariant length <= n
      decreases n - length
    {
      length := length + 1;
    }
  }

  /** `n`, the place of the terminator, is known to the caller only. */
  method CopyString8to32(dst: array<UTF32>, src: array<UTF8>, ghost n: nat)
    returns (result: ConversionResult, dstCount: nat)
    requires n < src.Length && src[n] == 0 && forall i :: 0 <= i < n ==> src[i] != 0
    modifies dst
    ensures var o := Run(C8to32, LenientConversion, old(src[..n]), dst.Length);
      && result == o.result
      && (result == ConversionOK ==> dstCount == |o.out| && dst[..dstCount] == o.out)
      && (result == ConversionOK && dstCount < dst.Length ==> dst[dstCount] == 0)
  {
    hide Run;
    var length := StrLen(src, n);
    ghost var before := dst[..];
    ghost var o := Run(C8to32, LenientConversion, src[..n], dst.Length);
    var read, end;
    result, read, end := ConvertUTF8toUTF32(src[..length], dst, 0, LenientConversion);
    assert dst[..end] == o.out;
    dstCount := 0;
    if result == ConversionOK {
      dstCount := end;
      if dstCount < dst.Length {
        dst[dstCount] := 0;
      }
    }
  }

  /** The static buffer of readUnicodeCharacter, and the keyboard it reads from. */
  class Decoder {
    const input: seq<UTF8>
    const utf8String: array<UTF8>
    var next: nat
    var utf8Count: nat

    ghost predicate Valid()
      reads this, utf8String
    {
      && utf8String.Length == 5 && utf8Count <= 4 && next <= |input|
      && forall i :: 0 <= i < utf8Count ==> utf8String[i] >= 0x80
    }

    ghost function Pending(): seq<UTF8>
      requires Valid()
      reads this, utf8String
    {
      utf8String[..utf8Count]
    }

    constructor (input: seq<UTF8>)
      ensures Valid() && fresh(this) && fresh(utf8String) && this.input == input && next == 0 && Pending() == []
    {
      this.input := input;
      utf8String := new UTF8[5];
      next, utf8Count := 0, 0;
    }

    method ReadUnicodeCharacter() returns (ch: UTF32)
      requires Valid()
      modifies this, utf8String
      ensures Valid()
      ensures ReadOne(old(Pending()), input[old(next)..]) == Reading(ch, Pending(), input[next..])
    {
      hide Run;
      ghost var whole := ReadOne(Pending(), input[next..]);
      while true
        invariant Valid() && whole == ReadOne(Pending(), input[next..])
        decreases |input| - next
      {
        if next == |input| {
          return 0;
        }
        var c := input[next];
        assert input[next..][1..] == input[next + 1..];
        next := next + 1;
        if c <= 0x7F {
          utf8Count := 0;
          return c;
        } else if utf8Count < 4 {
          ghost var kept := Pending();
          utf8String[utf8Count] := c;
          utf8Count := utf8Count + 1;
          utf8String[utf8Count] := 0;
          assert utf8String[..utf8Count] == kept + [c];
          var unicodeChar := new UTF32[2];
          var result, ucharCount := CopyString8to32(unicodeChar, utf8String, utf8Count);
          if result == ConversionOK && ucharCount > 0 {
            assert unicodeChar[..ucharCount][0] == unicodeChar[0];
            utf8Count := 0;
            return unicodeChar[0];
          }
        } else {
          utf8Count := 0;
        }
      }
    }
  }

  // ---------------------------------------------------------------- noise

  /** The n-th call's reading. */
  function ReadingAfter(n: nat, pending: seq<UTF32>, bytes: seq<UTF32>): Reading
    requires n > 0
  {
    var one := ReadOne(pending, bytes);
    if n == 1 then one else ReadingAfter(n - 1, one.pending, one.rest)
  }

  /**
   * Whatever was pending and whatever bytes come, at the next byte of ASCII some call returns it with nothing pending,
   * so that what follows is read from the start.
   */
  lemma {:induction false} BackInStep(pending: seq<UTF32>, noise: seq<UTF32>, ascii: UTF32, rest: seq<UTF32>)
    returns (n: nat)
    requires ascii <= 0x7F
    ensures n > 0 && ReadingAfter(n, pending, noise + ([ascii] + rest)) == Reading(ascii, [], rest)
    decreases |noise|
  {
    hide Run;
    var bytes := noise + ([ascii] + rest);
    if |noise| == 0 {
      assert bytes == [ascii] + rest;
      return 1;
    }
    var more := noise[1..] + ([ascii] + rest);
    assert bytes[0] == noise[0] && bytes[1..] == more;
    var one := ReadOne(pending, bytes);
    var o := Run(C8to32, LenientConversion, pending + [noise[0]], 2);
    if noise[0] <= 0x7F || (|pending| < 4 && o.result == ConversionOK && |o.out| > 0) {
      var k := BackInStep([], noise[1..], ascii, rest);
      n := k + 1;
    } else if |pending| < 4 {
      n := BackInStep(pending + [noise[0]], noise[1..], ascii, rest);
    } else {
      n := BackInStep([], noise[1..], ascii, rest);
    }
  }

  // ---------------------------------------------------------------- texts

  /** An incomplete character is never taken for one; the complete one is. */
  lemma PrefixOfChar(ch: Scalar, k: nat)
    requires 0 < k <= |Utf8Of(ch)|
    ensures var o := Run(C8to32, LenientConversion, Utf8Of(ch)[..k], 2);
      o == if k < |Utf8Of(ch)| then Outcome(SourceExhausted, 0, []) else Outcome(ConversionOK, k, [ch])
  {
    hide Utf8Of;
    hide WellFormedChar;
    hide ScalarOf;
    hide ReadValue;
    hide TrailingBytes;
    var s := Utf8Of(ch);
    DecodesEncoded(ch);
    UtfTexts.ReadsUtf8(s);
    assert s[..k][0] == s[0];
    if k == |s| {
      UtfTexts.Step8OnChar(C8to32, LenientConversion, ch, [], 2);
      assert s[..k] == s + [];
      hide StepOf;
      assert Run(C8to32, LenientConversion, (s + [])[k..], 1) == NOTHING;
    }
  }

  /** However much of a character is already pending, one more call finishes it, at its last byte. */
  lemma {:induction false} FinishesChar(ch: Scalar, k: nat, rest: seq<UTF32>)
    requires k < |Utf8Of(ch)| && (k > 0 ==> ch > 0x7F)
    ensures ReadOne(Utf8Of(ch)[..k], Utf8Of(ch)[k..] + rest) == Reading(ch, [], rest)
    decreases |Utf8Of(ch)| - k
  {
    hide Run;
    hide WellFormedChar;
    var s := Utf8Of(ch);
    var bytes := s[k..] + rest;
    if ch > 0x7F {
      EncodedIsWellFormedChar(ch);
      HighBytes(s);
      PrefixOfChar(ch, k + 1);
      assert bytes[0] == s[k] && s[..k] + [s[k]] == s[..k + 1];
      assert bytes[1..] == s[k + 1..] + rest;
      if k + 1 < |s| {
        FinishesChar(ch, k + 1, rest);
      } else {
        assert s[k + 1..] + rest == rest;
      }
    } else {
      assert bytes == [ch] + rest;
    }
  }

  /** The byte neither is ASCII nor completes a character with those pending. */
  predicate GoesPending(pending: seq<UTF32>, byte: UTF32) {
    && byte > 0x7F
    && (|pending| < 4 ==>
          var o := Run(C8to32, LenientConversion, pending + [byte], 2);
          o.result != ConversionOK || |o.out| == 0)
  }

  function PendingAfter(pending: seq<UTF32>, byte: UTF32): seq<UTF32> {
    if |pending| < 4 then pending + [byte] else []
  }

  /** The character that the byte completes. */
  function CharAt(pending: seq<UTF32>, byte: UTF32): UTF32
    requires !GoesPending(pending, byte)
  {
    if byte <= 0x7F then byte else Run(C8to32, LenientConversion, pending + [byte], 2).out[0]
  }

  lemma ReadsByte(pending: seq<UTF32>, byte: UTF32, rest: seq<UTF32>)
    ensures ReadOne(pending, [byte] + rest)
         == if GoesPending(pending, byte) then ReadOne(PendingAfter(pending, byte), rest)
            else Reading(CharAt(pending, byte), [], rest)
  {
    hide Run;
    assert ([byte] + rest)[1..] == rest;
  }

  /** Input that comes in two parts is read like the whole: a call that used up the first goes on with the second. */
  lemma {:induction false} GoesOn(pending: seq<UTF32>, first: seq<UTF32>, more: seq<UTF32>)
    ensures var one, whole := ReadOne(pending, first), ReadOne(pending, first + more);
      if one.ch == 0 && |one.rest| == 0 then whole == one.(rest := more) || whole == ReadOne(one.pending, more)
      else whole == one.(rest := one.rest + more)
    decreases |first|
  {
    if |first| == 0 {
      assert first + more == more;
    } else {
      assert first == [first[0]] + first[1..] && first + more == [first[0]] + (first[1..] + more);
      ReadsByte(pending, first[0], first[1..]);
      ReadsByte(pending, first[0], first[1..] + more);
      hide GoesPending;
      hide CharAt;
      hide ReadOne;
      GoesOn(PendingAfter(pending, first[0]), first[1..], more);
    }
  }

  /** A call that meets the end of the input inside a character returns 0 and keeps the bytes read so far. */
  lemma {:induction false} WaitsForMore(ch: Scalar, k: nat, j: nat)
    requires k <= j < |Utf8Of(ch)|
    ensures ReadOne(Utf8Of(ch)[..k], Utf8Of(ch)[k..j]) == Reading(0, Utf8Of(ch)[..j], [])
    decreases j - k
  {
    hide Run;
    hide WellFormedChar;
    if k < j {
      var s := Utf8Of(ch);
      EncodedIsWellFormedChar(ch);
      HighBytes(s);
      PrefixOfChar(ch, k + 1);
      assert s[k..j][0] == s[k] && s[..k] + [s[k]] == s[..k + 1] && s[k..j][1..] == s[k + 1..j];
      WaitsForMore(ch, k + 1, j);
    }
  }

  lemma HighBytes(s: seq<UTF32>)
    requires WellFormedChar(s) && |s| > 1
    ensures forall i :: 0 <= i < |s| ==> s[i] > 0x7F
  {
  }

  /** The characters that `n` calls return. */
  function ReadMany(n: nat, pending: seq<UTF32>, bytes: seq<UTF32>): seq<UTF32>
  {
    if n == 0 then []
    else
      var one := ReadOne(pending, bytes);
      [one.ch] + ReadMany(n - 1, one.pending, one.rest)
  }

  /** Fed the UTF-8 of any text, successive calls return exactly its characters. */
  lemma {:induction false} ReadsText(text: seq<Scalar>, rest: seq<UTF32>)
    ensures ReadMany(|text|, [], Utf8(text) + rest) == text
    decreases |text|
  {
    hide ReadOne;
    if |text| > 0 {
      var s := Utf8Of(text[0]);
      FinishesChar(text[0], 0, Utf8(text[1..]) + rest);
      assert s[..0] == [] && s[0..] + (Utf8(text[1..]) + rest) == Utf8(text) + rest;
      ReadsText(text[1..], rest);
    }
  }
}
